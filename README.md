# Accessible Wikipedia Math, modelled in Dafny

Wikipedia writes much of its inline mathematics not as MathML but with HTML
templates: nested `<span>`s whose classes (`sfrac`, `nowrap`, `texhtml`, `mathcal`)
and inline styles draw fractions, roots, integrals, large delimiters and scripts.
Screen readers cannot read that. The scripts of this repository find such markup,
recognise its shapes, build an expression tree `Node(type, value, children)`,
repair the tree with three passes, and emit MathML presentation markup.

There are three revisions of the pipeline, and the model covers all three:

- `content-script.js`, the browser extension. It has:
  - a sticky-regex tokenizer;
  - a priority-ordered template recogniser;
  - the passes `RemoveNestedRows`, `MatchFences` and `FixSubSup`;
  - a renderer that builds MathML elements.
- `accessible-wikipedia-math.safariextension/content-script.js`, the Safari extension. It has:
  - the same passes;
  - a different template order, with exact class tests;
  - a renderer that writes the MathML as a string.
- `inlinemath.user.js`, an early user script. It has:
  - an ASCII tokenizer;
  - four templates;
  - a recursive parenthesis grouper;
  - a `stringify` debug printer.

The modules follow the pipeline.

| module | file | what it holds |
|---|---|---|
| `Wrappers` | `wrappers.dfy` | `Outcome` = `Ok(value)`, `Throws` or `Diverges` |
| `Strings`, `Chars` | `strings.dfy`, `chars.dfy` | the string methods and the regular-expression character classes the scripts use |
| `Fragments` | `fragments.dfy` | the input markup as a read-only datatype (element or text run) and `classList` |
| `ExprTree` | `exprtree.dfy` | `Node`, its left-to-right reading, and `stringify` |
| `Tokenizer` | `tokenizer.dfy` | both tokenizers, as a reference function and as the source's matching loop |
| `Templates` | `templates.dfy` | the `Check*` predicates and each revision's dispatch order |
| `Builder` | `builder.dfy` | `GetTreeFromElement` and the `GetTreeFrom*` builders, with their shapes |
| `NestedRows` | `nested_rows.dfy` | `RemoveNestedRows` |
| `Fences` | `fences.dfy` | `MatchFences`, as written and as intended |
| `Scripts` | `scripts.dfy` | `FixSubSup` |
| `PostProcessing` | `postprocessing.dfy` | `TreePostProcessing` of the Wikipedia revisions |
| `Render` | `render.dfy` | `TreeToMathML` and `GetMathMLFromElement` of the content script |
| `SafariMarkup` | `safari_markup.dfy` | the Safari extension's string serialiser and `GetMathMLFromElement` |
| `InlineMath` | `inline.dfy` | the user script's grouper, passes and output |

How each part is modelled:

- The loops that compute step by step are `method`s with that loop: the tokenizer's
  `while (m = XRegExp.exec(...))`, the search for the `BR` of an integral, the `for` that
  pushes a delimiter's children, the loops of `RemoveNestedRows`, `MatchFences` and
  `FixSubSup`, and the user script's `MatchOpenFences`. Each such method is proved equal
  to a recursive specification function, and the lemmas state their properties about
  that function.
- The `map` calls, and the `for (let c of children)` loops of `TreeToMathML` that append
  every rendered child to the new element, are written as recursion over the list
  (`Wrappers.Collect`, `Render.RenderList`): the element is built with its list of
  children at once.
- A builder that reads a child the fragment lacks ends in `Throws`. In JavaScript it
  passes `undefined` on and the next property read throws.
- The source's endless bracket loop ends in `Diverges`.
- The three revisions share one recogniser, parameterised by `Revision`. Each revision
  has its own dispatch function, written branch by branch as the source writes it.

Most properties are stated against the tree's **reading**, `ExprTree.Reading`. This is
what a reader meets from left to right: every text value, the two delimiters of a fence,
and an integral's sign before its limits. Tokenizing keeps the text minus its white
space. Every pass and the renderer keep the reading unchanged.

## Model

| member | source | states |
|---|---|---|
| `Wrappers.Collect` | content-script.js:305 | mapping the builder over children succeeds exactly when every child's build succeeds; the values are kept in order, and it diverges only if some child does |
| `Strings.IncludesAt` | content-script.js:513 | `includes` finds any substring that occurs at some position |
| `Chars.RemoveSpaces` | content-script.js:76 | the text minus its white space has no white space and is no longer than the text |
| `Chars.RemoveSpacesEmpty` | content-script.js:76 | nothing is left after removing white space exactly when every character is white space |
| `Chars.ClassesAreDisjoint` | content-script.js:71-76 | letters, numerals and pseudo-script marks are never white space; letters are not numerals; the ASCII classes of the user script lie inside the Unicode ones |
| `Fragments.ClassListTokens` | content-script.js:120 | every entry of `classList` is a non-empty class name without separators |
| `Fragments.TwoClasses` | accessible-wikipedia-math.safariextension/content-script.js:110 | the attribute `sfrac nowrap` lists exactly the classes `sfrac` and `nowrap` |
| `ExprTree.Indent` | inlinemath.user.js:26 | `"  ".repeat(level)` is `2 * level` spaces |
| `ExprTree.Stringify` | inlinemath.user.js:24-31 | `stringify` of a node ends with a line break |
| `ExprTree.StringifyList` | inlinemath.user.js:26-30 | the children's text is empty or ends with a line break |
| `ExprTree.StringifyPrintsOutline` | inlinemath.user.js:24-31 | `stringify` prints one line per node, in document order. Each line is two spaces per depth level, then `type:value`. The first line is the node itself |
| `ExprTree.StringifyListPrintsOutline` | inlinemath.user.js:26-30 | the children's text is one line per node of each child, in order, each at least one level deeper |
| `Tokenizer.Tokens` | content-script.js:71-83 | the reference token sequence (no contract of its own): white space is skipped; each token is the longest run of the first alternative of the expression that matches, or one character. `TokensCover`, `TokensWellFormed` and `Tokenize` state its properties |
| `Tokenizer.TextTree` | content-script.js:85-99 | the tree of a text (no contract of its own): one token gives that token's node alone, any other number a row of the token nodes in order. `TextTreeReading` and `TextTreeShape` state its properties |
| `Tokenizer.RunLength` | content-script.js:76 | a run is the longest prefix whose characters are all of the run's class |
| `Tokenizer.TokenIsLongestRun` | content-script.js:76 | the token at a position is the longest run of the first alternative that matches its first character, or that single character |
| `Tokenizer.TokensAt` | content-script.js:80-82 | one match at `pos`: a white-space character contributes no token; otherwise the token is the text from `pos` of the token's length |
| `Tokenizer.SkipSpaces` | content-script.js:76 | `\s*` stops at the first non-space character and drops no token |
| `Tokenizer.ExecToken` | content-script.js:80-82 | a sticky match either yields the next token and moves past it and its trailing white space, or fails exactly when only white space is left |
| `Tokenizer.Tokenize` | content-script.js:76-83 | the matching loop yields exactly the reference token sequence |
| `Tokenizer.TokensCover` | content-script.js:76-83 | the tokens, concatenated, are the text with its white space removed |
| `Tokenizer.TokensWellFormed` | content-script.js:76 | every token is non-empty, holds no white space, and is one character or a run of one class |
| `Tokenizer.TokensNonEmpty` | content-script.js:76 | no token is empty |
| `Tokenizer.NoTokensIffBlank` | content-script.js:76-83 | the loop yields no token exactly when the text is all white space |
| `Tokenizer.WikiKeepsDecimal` | content-script.js:76 | the Wikipedia tokenizer keeps `12.5` as one token |
| `Tokenizer.AsciiSplitsDecimal` | inlinemath.user.js:52-57 | the user script splits `12.5` into `12`, `.` and `5` |
| `Tokenizer.PrimeAfterLetter` | content-script.js:71-76 | `f′ x` gives the tokens `f`, `′` and `x` |
| `Tokenizer.PrimeThenLetter` | content-script.js:71-76 | `′ x` gives the tokens `′` and `x` |
| `Tokenizer.TokenNode` | content-script.js:85-98 | a token becomes a `sup` node exactly when the Wikipedia lexicon is used and the token contains a pseudo-script mark (the test is not anchored); otherwise it becomes a text node. The node reads as the token |
| `Tokenizer.ReadingTokenNodes` | content-script.js:92-98 | the token nodes read as the tokens concatenated |
| `Tokenizer.TextTreeReading` | content-script.js:85-99 | the tree of a text reads as the text without its white space, and its text nodes are leaves |
| `Tokenizer.BlankTextTree` | content-script.js:85-99 | text that is only white space gives an empty row |
| `Tokenizer.TextTreeShape` | content-script.js:85-99 | no token gives an empty row; one token gives its node unwrapped; several give a row of their nodes, in order |
| `Tokenizer.SumOfLetterAndDigit` | content-script.js:76-99 | `x+1` becomes a row of the three text nodes `x`, `+` and `1` |
| `Templates.IsHidden` | content-script.js:28 | the test, as written: a `SPAN` whose style is exactly `display:none` |
| `Templates.IsSqrt` | content-script.js:102-108 | the test, as written: a `SPAN` of class exactly `nowrap` with two child nodes, the first the text `√` |
| `Templates.IsRadic` | content-script.js:110-116 | the test, as written: a `SPAN` of class exactly `nowrap` with three child nodes, the second the text `√` |
| `Templates.IsFraction` | content-script.js:118-122 | the test, as written: a `SPAN` with three child nodes whose class list holds `sfrac` (content script) or whose class is exactly `sfrac nowrap` (the other revisions) |
| `Templates.IsFraction2` | content-script.js:124-128 | the same with `frac` and `frac nowrap` |
| `Templates.IsIntegral` | content-script.js:130-143 | the test, as written: a `SPAN` with two child nodes, the first holding exactly one node whose data is one of the eight integral signs |
| `Templates.IsSub` | content-script.js:145-147 | the test, as written: the node name is `SUB` |
| `Templates.IsSup` | content-script.js:149-151 | the test, as written: the node name is `SUP` |
| `Templates.IsSu` | content-script.js:153-158 | the test, as written: a `SPAN` with one of the two exact inline-block styles, 80% left-aligned or 85% right-aligned |
| `Templates.IsOver` | content-script.js:160-163 | the test, as written: a `SPAN` with the exact `bottom:0.75em` style |
| `Templates.IsUnder` | content-script.js:165-168 | the test, as written: a `SPAN` with the exact `top:0.45em` style |
| `Templates.IsVariable` | content-script.js:170-176 | the test, as written: an `I`, or a `SPAN` styled exactly `font-style:italic;`, with one child node that is text |
| `Templates.IsDelim` | content-script.js:178-181 | the test, as written: an element with at least four child nodes whose class list holds `sfrac` (content script) or whose class is exactly `sfrac nowrap;` (Safari extension) |
| `Templates.Classify` | content-script.js:27-69 | the template chosen for a node is one the node passes in that revision |
| `Templates.ContentDispatch` | content-script.js:28-68 | the content script's dispatch picks a template the node passes |
| `Templates.SafariDispatch` | accessible-wikipedia-math.safariextension/content-script.js:28-59 | the Safari extension's dispatch picks a template the node passes |
| `Templates.InlineDispatch` | inlinemath.user.js:38-49 | the user script's dispatch picks a template the node passes |
| `Templates.ClassifyIsFirstMatch` | content-script.js:28-68 | in every revision the dispatch picks the first template in that revision's order that the node passes, so no branch is shadowed |
| `Templates.ContentFirst` | content-script.js:28-68 | the content script's dispatch is the first match in its order: hidden, sqrt, radic, sfrac, frac, delim, integral, sub, sup, su, over, under, variable, non-span skip, container, text |
| `Templates.ContentFrom` | content-script.js:28-38 | the hidden span, sqrt, radic and sfrac checks come first, in that order |
| `Templates.ContentFrom4` | content-script.js:39-48 | then frac, delim, integral and sub |
| `Templates.ContentFrom8` | content-script.js:49-52 | then sup and su |
| `Templates.ContentFrom10` | content-script.js:53-56 | then over and under |
| `Templates.ContentFrom12` | content-script.js:57-64 | then variable; then any other non-span element is skipped |
| `Templates.ContentFrom14` | content-script.js:66-80 | last, a node with children is a container; otherwise its text is tokenized |
| `Templates.SafariFirst` | accessible-wikipedia-math.safariextension/content-script.js:28-59 | the Safari extension's dispatch is the first match in its order, with delim tried after every other template |
| `Templates.SafariFrom` | accessible-wikipedia-math.safariextension/content-script.js:28-37 | the hidden span, sqrt, radic and sfrac checks come first |
| `Templates.SafariFrom4` | accessible-wikipedia-math.safariextension/content-script.js:38-45 | then frac, integral, sub and sup |
| `Templates.SafariFrom8` | accessible-wikipedia-math.safariextension/content-script.js:46-49 | then su and over |
| `Templates.SafariFrom10` | accessible-wikipedia-math.safariextension/content-script.js:50-53 | then under and variable |
| `Templates.SafariFrom12` | accessible-wikipedia-math.safariextension/content-script.js:54-59 | then delim; then container; then text |
| `Templates.InlineFirst` | inlinemath.user.js:38-49 | the user script's dispatch is the first match among sqrt, radic, sub, sup, container and text |
| `Templates.InlineFrom` | inlinemath.user.js:38-40 | sqrt, radic and sub come first |
| `Templates.InlineFrom3` | inlinemath.user.js:41-49 | then sup; then container; then text |
| `Templates.TextNodesAreTokenized` | content-script.js:28-80 | every revision tokenizes a text node |
| `Templates.DelimBeforeSub` | content-script.js:41-48 | a `SUB` element with class `sfrac` and four children is a delimiter in the content script and a subscript in the Safari extension |
| `Templates.FractionClassTest` | accessible-wikipedia-math.safariextension/content-script.js:108-112 | a span with class `sfrac` among others is a fraction in the content script; in the Safari extension, which tests the exact string, it is a container |
| `Builder.Wrap` | content-script.js:7-11 | a node succeeds exactly when every child succeeds; it has the given type and value, and the children in order |
| `Builder.Group` | content-script.js:301-307 | `CreateRowNode` over child trees succeeds exactly when every child tree does, and returns rather than loops when none of them loops |
| `Builder.Build` | content-script.js:27-100 | `GetTreeFromElement` in each revision: the builder of the template `Classify` picks. It returns a tree or throws; it never loops |
| `Builder.RowTree` | content-script.js:301-307 | `CreateRowNode` of an element: returns a tree or throws, never loops |
| `Builder.SqrtTree` | content-script.js:183-185 | `GetTreeFromSqrtElement`: returns a tree or throws, never loops |
| `Builder.RadicTree` | content-script.js:187-189 | `GetTreeFromRadicElement`: returns a tree or throws, never loops |
| `Builder.FractionTree` | content-script.js:191-199 | `GetTreeFromFractionTemplate`: returns a tree or throws, never loops |
| `Builder.Fraction2Tree` | content-script.js:201-204 | `GetTreeFromFractionTemplate2`: returns a tree or throws, never loops |
| `Builder.DelimTree` | content-script.js:270-299 | `GetTreeFromDelimTemplate`: returns a tree or throws, never loops |
| `Builder.IntegralTree` | content-script.js:206-238 | `GetTreeFromIntegralTemplate`: returns a tree or throws, never loops |
| `Builder.UpperTree` | content-script.js:215-222 | the upper limit's tree: returns a tree or throws, never loops |
| `Builder.LowerTree` | content-script.js:216-229 | the lower limit's tree: returns a tree or throws, never loops |
| `Builder.ScriptTree` | content-script.js:240-258 | `GetTreeFromSubTemplate`, `...Sup...`, `...Over...` and `...Under...`: return a tree or throw, never loop |
| `Builder.SuTree` | content-script.js:248-250 | `GetTreeFromSuTemplate`: returns a tree or throws, never loops |
| `Builder.VariableTree` | content-script.js:260-268 | `GetTreeFromVariableTemplate` always succeeds |
| `Builder.FirstBreak` | content-script.js:207-214 | the position of the first `BR` among the limit nodes, or their number when there is none |
| `Builder.FindBreak` | content-script.js:207-214 | the search loop returns that position |
| `Builder.FirstBreakIs` | content-script.js:209-214 | a position with no `BR` before it and a `BR` at it (or the end) is the first break |
| `Builder.PushFenced` | content-script.js:295-297 | the `for` loop from index 2 to below `length - 2` pushes, in order, the tree of every child between the two delimiter pieces, one per child |
| `Builder.BuildShaped` | content-script.js:27-100 | every tree the recogniser builds has the built shape. Its text nodes are non-empty leaves. A sqrt has one child; a radic, frac and integral two; a su two; a fence value has two characters; in the Wikipedia revisions a sub/sup has one child |
| `Builder.GroupShape` | content-script.js:301-307 | `CreateRowNode` over no nodes gives an empty row, over one node that node, over several a row of them |
| `Builder.SkippedElements` | content-script.js:62-64 | an unrecognised non-span element is an empty row in the content script; in the Safari extension it is the row of its children, or its tokenized text when it has none |
| `Builder.HiddenSpanIsEmpty` | content-script.js:28-30 | a `display:none` span is an empty row in the Wikipedia revisions |
| `Builder.ContainerShape` | content-script.js:301-307 | a container is its only child's tree, or the row of all its children's trees in order |
| `Builder.SqrtShape` | content-script.js:183-185 | a square root holds the tree of the node after the radical sign |
| `Builder.RadicShape` | content-script.js:187-189 | a root holds radicand then index in the Wikipedia revisions, and index then radicand in the user script |
| `Builder.FractionShape` | content-script.js:191-199 | with a `/` in the middle it is the fraction of the outer children; otherwise a row of the whole part, `+`, and the fraction of the third child's first and third children |
| `Builder.Fraction2Shape` | content-script.js:201-204 | the fraction of the first children of the first and third child |
| `Builder.IntegralShape` | content-script.js:206-238 | the integral's value is its sign and it has exactly two children, lower then upper. Lower is what follows the first `BR`, upper what precedes it. A side with one node is that node's tree, several a row, none an empty row; so without a `BR`, lower is empty |
| `Builder.UpperTreeShape` | content-script.js:215-222 | the upper limit's tree by the number of nodes before the `BR` |
| `Builder.LowerTreeShape` | content-script.js:216-229 | the lower limit's tree by the number of nodes after the `BR` |
| `Builder.DelimShape` | content-script.js:270-299 | a fence whose value is two characters: left from `(`, `[`, `|`, `‖` and right from `)`, `]`, `|`, `‖`. Its children are the trees of child nodes 2 to n-3, in order |
| `Builder.FencePair` | content-script.js:271-294 | the delimiters drawn from two piece glyphs are two characters from those sets, `()` by default |
| `Builder.SuShape` | content-script.js:248-250 | a stacked script holds the third child's tree, then the first's |
| `Builder.ScriptShape` | content-script.js:240-258 | sub, sup, over and under give `sub`/`sup`, the last two with value "2". In the Wikipedia revisions the one child is `CreateRowNode` of the element; in the user script there is one child per child node |
| `Builder.VariableShape` | content-script.js:260-268 | a one-character variable is a text node, a longer one a row of one text node per character |
| `NestedRows.FlattenSize` | content-script.js:321-331 | each round of the loop does not grow the children, and shrinks them while a row is among them, so the loop ends |
| `NestedRows.FlattenRows` | content-script.js:321-331 | the `while` loop yields the reference function's children |
| `NestedRows.UnnestIsExpand` | content-script.js:321-331 | the loop leaves exactly the non-row nodes below the rows, in their left-to-right order |
| `NestedRows.UnnestHasNoRow` | content-script.js:321-331 | when the loop ends no child is a row |
| `NestedRows.UnnestSize` | content-script.js:321-331 | the loop does not add nodes |
| `NestedRows.UnnestReading` | content-script.js:321-331 | the children read the same after the loop |
| `NestedRows.Unnested` | content-script.js:319-334 | every node keeps its type and value |
| `NestedRows.RemoveNestedRows` | content-script.js:319-334 | the recursive pass yields the reference tree |
| `NestedRows.UnnestedIsFlat` | content-script.js:319-334 | afterwards no row anywhere has a direct row child |
| `NestedRows.UnnestedReading` | content-script.js:319-334 | the tree reads the same |
| `NestedRows.FlatIsFixed` | content-script.js:319-334 | a tree without nested rows is left unchanged |
| `NestedRows.UnnestedIdempotent` | content-script.js:319-334 | running the pass twice is running it once |
| `Fences.OpenIsNotClose` | content-script.js:337-338 | no node is both an open and a close bracket |
| `Fences.ScanFrom` | content-script.js:345-355 | a pair found by the `for` loop has its open before its close, both in range |
| `Fences.Scan` | content-script.js:343-355 | the same for the loop from the start |
| `Fences.ScanSpec` | content-script.js:343-355 | the loop finds no pair exactly when no open bracket is followed by a close bracket. A pair found is the first close bracket with an open before it, and the nearest such open, with no bracket between |
| `Fences.Splice` | content-script.js:351-352 | the two splices replace the pair and what lies between by one node |
| `Fences.MatchLevel` | content-script.js:340-356 | as written, the `while` loop never throws, and when it ends no child is an open bracket |
| `Fences.MatchFencesLevel` | content-script.js:340-356 | the nested loops at one node compute that function, `Diverges` where the source spins for ever |
| `Fences.PairFirst` | content-script.js:343-355 | one pass of the `for` loop finds a pair exactly when the reference scan does, replaces it by its fence, and shortens the children |
| `Fences.ClosesGivePair` | content-script.js:340-355 | when every open bracket is closed after it, the `for` loop finds a pair |
| `Fences.MatchLevelEnds` | content-script.js:340-356 | the loop ends exactly when, from every open bracket on, there are at least as many close brackets as open ones |
| `Fences.MatchLevelAgrees` | content-script.js:340-356 | where the loop ends, it gives the same children as the intended loop |
| `Fences.LoneOpenDiverges` | content-script.js:340-356 | a lone `(` makes the loop spin; the intended loop keeps it |
| `Fences.PairLevelDone` | content-script.js:340-356 | after the intended loop no open bracket is followed by a close bracket |
| `Fences.FenceOfPair` | content-script.js:351 | the fence value is the open then the close bracket (mismatched pairs allowed), two characters; the wrapped nodes hold no bracket |
| `Fences.SpliceCounts` | content-script.js:351-352 | each pairing removes exactly one open and one close bracket |
| `Fences.FenceReading` | content-script.js:351 | the fence reads as its open bracket, the wrapped nodes and its close bracket |
| `Fences.SpliceReading` | content-script.js:351-352 | a pairing leaves the children reading the same |
| `Fences.PairLevelReading` | content-script.js:340-356 | the intended loop keeps the reading and does not grow the tree |
| `Fences.Matched` | content-script.js:336-358 | every node keeps its type and value |
| `Fences.MatchedReading` | content-script.js:336-358 | the tree reads the same after the pass |
| `Fences.MatchFences` | content-script.js:336-358 | the pass never throws. It ends exactly when the loop ends at every node, and then gives the intended tree |
| `Fences.ParenthesisedSum` | content-script.js:336-358 | `( a + b )` becomes one `()` fence around `a + b` |
| `Scripts.AttachScripts` | content-script.js:370-383 | the `for` loop over a node's children yields the reference attachment |
| `Scripts.AttachTurn` | content-script.js:371-381 | one turn: a script needing a base takes the preceding sibling as first child, and the next turn examines the element after the script, which now has the script as its preceding sibling; otherwise the loop moves on |
| `Scripts.WithBaseKeeps` | content-script.js:375 | a script that takes its base reads as base then script, and no node is created or dropped |
| `Scripts.AttachKeeps` | content-script.js:370-383 | the children read the same and have as many nodes afterwards |
| `Scripts.BaseAttached` | content-script.js:372-376 | a one-child script after a sibling takes that sibling as its first child |
| `Scripts.FixSubSup` | content-script.js:360-386 | the recursive pass yields the reference tree |
| `Scripts.FixedComplete` | content-script.js:360-386 | afterwards every sub/sup has at least two children and every su at least three |
| `Scripts.FixedKeeps` | content-script.js:360-386 | nodes are moved and relabelled, never created or dropped, and the tree reads the same |
| `Scripts.AttachBounded` | content-script.js:370-383 | attaching bases keeps every script within its arity |
| `Scripts.FixedExact` | content-script.js:360-386 | on a tree whose scripts are within arity, afterwards every sub/sup has exactly two children and every su exactly three |
| `PostProcessing.TreePostProcessing` | content-script.js:313-317 | the three passes never throw. They end exactly when `MatchFences` ends on the unnested tree, and then give the reference tree |
| `PostProcessing.PostProcessReading` | content-script.js:313-317 | the passes keep the tree's reading |
| `PostProcessing.PostProcessComplete` | content-script.js:313-317 | afterwards every script has its base |
| `PostProcessing.DemotionNestsRows` | content-script.js:361-368 | a row holding a lone subscript has no nested row, yet after the passes it holds a row. A second run changes it again |
| `PostProcessing.UnnestedBounded` | content-script.js:319-334 | removing nested rows keeps scripts within their arity |
| `PostProcessing.MatchedBounded` | content-script.js:336-358 | pairing brackets keeps scripts within their arity |
| `PostProcessing.BuiltScriptsExact` | content-script.js:313-317 | on every tree the Wikipedia recognisers build, afterwards every sub/sup has exactly a base and a script, and every su a base and two scripts |
| `Render.ToMathML` | content-script.js:390-504 | `TreeToMathML`: every node becomes an element, never bare text |
| `Render.TextTag` | content-script.js:489-502 | a text node becomes `mi`, `mn` or `mo`, and `mi` exactly when it holds a letter |
| `Render.RenderedText` | content-script.js:390-504 | the rendered markup's text nodes hold exactly the tree's reading, in order |
| `Render.IntegralText` | content-script.js:418-426 | an integral's markup reads as its sign (in an `mo`), then its limits |
| `Render.FenceText` | content-script.js:461-488 | a fence's markup reads as its open delimiter, its children and its close delimiter, with or without the inner `mrow` |
| `Render.CompleteScriptsRender` | content-script.js:427-460 | a tree whose scripts are exact renders every `msub`, `msup`, `munder` and `mover` with exactly two children |
| `Render.LonePointTag` | content-script.js:494 | a lone point is `mo` in the content script and `mn` in the Safari extension; `3.5` is `mn` |
| `Render.TokenTags` | content-script.js:489-502 | a number is `mn`, a letter `mi`, a sign `mo` |
| `Render.GetMathMLFromElement` | content-script.js:506-527 | succeeds exactly on an element whose build succeeds; the result is a `math` element with the MathML namespace and role `math`, and one child |
| `Render.MathMLFromElement` | content-script.js:506-527 | the output holds exactly the built tree's reading, and every script in it has exactly a base and a script |
| `Render.BodyText` | content-script.js:510-518 | the body, with or without the `mathcal` style, reads as the tree and has complete scripts |
| `SafariMarkup.Markup` | accessible-wikipedia-math.safariextension/content-script.js:380-421 | `TreeToMathML` of the Safari extension, as written: every node's string opens with a tag, so it starts with `<` |
| `SafariMarkup.MarkupAgrees` | accessible-wikipedia-math.safariextension/content-script.js:380-421 | without a stacked script, the serialiser as written writes exactly the markup of the MathML tree. Each node is its start tag, its children in order, and the matching end tag |
| `SafariMarkup.MarkupListAgrees` | accessible-wikipedia-math.safariextension/content-script.js:381-383 | the children's strings concatenated in order |
| `SafariMarkup.IntegralMarkup` | accessible-wikipedia-math.safariextension/content-script.js:394-395 | an integral is `<msubsup><mo>sign</mo>`, its limits, `</msubsup>` |
| `SafariMarkup.FenceMarkup` | accessible-wikipedia-math.safariextension/content-script.js:406-411 | a one-child fence is `<mrow><mo>l</mo>child<mo>r</mo></mrow>`; otherwise the children sit in an inner `mrow` |
| `SafariMarkup.StackedScriptTags` | accessible-wikipedia-math.safariextension/content-script.js:404-405 | a stacked script's markup as written differs from the intended markup |
| `SafariMarkup.TextNotEscaped` | accessible-wikipedia-math.safariextension/content-script.js:412-419 | text goes in verbatim: `<` is written `<mo><</mo>` |
| `SafariMarkup.GetMathMLFromElement` | accessible-wikipedia-math.safariextension/content-script.js:423-434 | succeeds exactly on an element whose build succeeds; the result starts with `<math xmlns='http://www.w3.org/1998/Math/MathML'>` and ends with `</math>` |
| `SafariMarkup.ScriptStyleTag` | accessible-wikipedia-math.safariextension/content-script.js:431 | the script-style start tag is `<mstyle mathvariant=script>` |
| `SafariMarkup.ScriptStyleMarkup` | accessible-wikipedia-math.safariextension/content-script.js:431 | the `mathcal` wrapper is that start tag, the content, `</mstyle>` |
| `SafariMarkup.MarkupBodyIsBody` | accessible-wikipedia-math.safariextension/content-script.js:429-432 | the Safari body is the markup of the content script's MathML body, text tags aside |
| `SafariMarkup.SafariBodyIsContentBody` | accessible-wikipedia-math.safariextension/content-script.js:423-434 | between the root tags the output is the markup of the content script's MathML body |
| `InlineMath.OpenFences` | inlinemath.user.js:137-151 | `MatchOpenFences` as written never returns more nodes than it was given |
| `InlineMath.OpenFencesStep` | inlinemath.user.js:144-148 | a node that is neither `(` nor the closing fence is kept and the loop goes on |
| `InlineMath.MatchOpenFences` | inlinemath.user.js:137-151 | the loop with its accumulator yields the reference function |
| `InlineMath.Grouped` | inlinemath.user.js:137-151 | as intended, what is left after the closing fence is no longer than the level |
| `InlineMath.RestIsSuffix` | inlinemath.user.js:137-151 | what is left over is a suffix of the level |
| `InlineMath.GroupedPlain` | inlinemath.user.js:137-151 | grouping keeps every node that is not a parenthesis, in order |
| `InlineMath.GroupedTakesAll` | inlinemath.user.js:139-150 | without a closing fence among the nodes, every node is taken |
| `InlineMath.GroupLevelPlain` | inlinemath.user.js:137-153 | the intended grouping of a level loses no text |
| `InlineMath.OpenFencesPrefix` | inlinemath.user.js:137-151 | as written, what is kept reads as a prefix of the level, parentheses aside |
| `InlineMath.NoOpenAgrees` | inlinemath.user.js:137-151 | without a `(` the two groupings agree |
| `InlineMath.NoOpenUnchanged` | inlinemath.user.js:137-153 | with no `(` among the children (and no empty text node), `MatchFences` leaves the list unchanged |
| `InlineMath.DropsAfterGroup` | inlinemath.user.js:142-143 | as written, in `(a)+b` the `+b` is lost; the intended grouping keeps it |
| `InlineMath.InlineProcessed` | inlinemath.user.js:113-153 | every node keeps its type and value |
| `InlineMath.TreePostProcessing` | inlinemath.user.js:113-153 | the recursive passes (rows flattened, each child processed in full, then the level grouped) yield the reference tree |
| `InlineMath.InlineFixed` | inlinemath.user.js:113-153 | with the intended grouping, every node keeps its type and value |
| `InlineMath.ShapedHasNoEmptyText` | inlinemath.user.js:52-65 | built trees have no empty text node |
| `InlineMath.InlineFixedPlain` | inlinemath.user.js:113-153 | the intended processing loses no text, parentheses aside |
| `InlineMath.GetMathMLFromElement` | inlinemath.user.js:158-165 | succeeds exactly when the build does. The logged text is one `stringify` line per node of the processed tree, then four line breaks |
| `InlineMath.LoggedTreeKeepsText` | inlinemath.user.js:158-165 | with the intended grouping, the logged tree reads, parentheses aside, as the tree that was built |

## Properties the code does not have

Each item is a property one might expect of the passes; the code does not have it, and
the model follows the code:

- **Pseudo-script tokens.** A token counts as a pseudo-script when it contains one of the
  marks, not only when it consists of them, because the test is not anchored
  (`Tokenizer.TokenNode`). The marks `ª` and `º` are letters, so a word containing one
  becomes a superscript.
- **Malformed fragments.** Recognition is not total. A fragment that passes a check but
  lacks a child the builder reads ends in `Throws`.
- **Unmatched brackets.** An open bracket without a close bracket after it is not left
  alone: `MatchFences` never returns (Findings).
- **Rows after the passes.** No-nested-rows does not survive the three passes, and running
  the passes twice can change the tree (`PostProcessing.DemotionNestsRows`).
- **Script arity.** "Every `sub`/`sup` has exactly two children after `FixSubSup`" holds
  only on the trees the Wikipedia recognisers build (`PostProcessing.BuiltScriptsExact`).
  In general the pass gives at least two (`Scripts.FixedComplete`).

## Left out

- `FindMathElements`, `CreateInvisibleMathMLNode`, `Main` and the top-level `try`/`catch`
  are left out. They walk and rewrite the live document and mark elements `aria-hidden`.
- `console.log` and `console.error` are left out.
- The DOM calls `createElement`, `appendChild` and `setAttribute` are left out. The
  rendered MathML is a datatype of elements, attributes and text.
- Comment and other non-element, non-text nodes are not part of the input model.
- `Chars.IsLetter`: `\pL` is approximated by the Latin, Greek, Cyrillic, Hebrew and
  letter-like-symbol ranges. The full Unicode letter table is not carried.
- JavaScript strings are UTF-16. The model's strings are sequences of code points, so a
  character outside the Basic Multilingual Plane is one character here and two in the
  source (`split("")`, `length`).
- The passes update the tree in place; here they are modelled on values.
  `RemoveNestedRows`, `MatchFences` and `FixSubSup` are methods with the source's loops,
  over a `Node` datatype. The source's trees have no sharing, so aliasing is not modelled.
- `Render.GetMathMLFromElement` is stated with the intended bracket pairing: where the
  source's loop would never return, the model still produces output. The as-written pass
  is `PostProcessing.TreePostProcessing`.
- `SafariMarkup.GetMathMLFromElement` is stated with the intended bracket pairing and the
  intended `msubsup` end tag. The as-written serialiser is `SafariMarkup.Markup`.
- `InlineMath.GetMathMLFromElement` returns the text the source logs, where the source
  returns `undefined`. It is stated with the intended grouping. The as-written passes are
  `InlineMath.TreePostProcessing`.
- The variable `style` in the content script's `GetMathMLFromElement` is an implicit
  global. It is not modelled.

## Findings

| source | as written | input that shows it | evidently intended | confidence | as-written member | corrected member |
|---|---|---|---|---|---|---|
| content-script.js:340-356 | the `while` loop runs as long as some child is an open bracket, but only a close bracket after it removes one | a row holding an open bracket with no close bracket after it, e.g. the tokens of the text `(a` | pair what can be paired and leave an unmatched open bracket as it is | high, not executed | `Fences.LoneOpenDiverges` | `Fences.PairLevelDone` |
| accessible-wikipedia-math.safariextension/content-script.js:404-405 | a stacked script is closed with `</msupsup>` | any `su` node, e.g. a span styled `display:inline-block;…;text-align:left` with three children | close it with `</msubsup>`, the tag it was opened with | high, not executed | `SafariMarkup.StackedScriptTags` | `SafariMarkup.SafariBodyIsContentBody` |
| inlinemath.user.js:137-153 | `MatchOpenFences` returns as soon as it has built the first parenthesised group, so everything after that group's `)` is dropped | the children `(`, `a`, `)`, `+`, `b` | group `(a)` into a fence and keep `+b` after it | medium, not executed | `InlineMath.DropsAfterGroup` | `InlineMath.GroupLevelPlain` |
