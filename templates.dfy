/** The template checks: how `GetTreeFromElement` recognises the markup that Wikipedia's
    math templates produce, and in which order each revision of the script tries them. */
module Templates {
  import opened Fragments

  /** The three revisions of the script: the browser extension's content script, the
      Safari extension's content script, and the early user script. */
  datatype Revision = ContentScript | SafariExtension | InlineUserScript

  /** What `GetTreeFromElement` does with a node: one of the templates, or one of the
      fall-backs at the end (an unknown element becomes an empty row, an element with
      children becomes a row of them, anything else is tokenized as text). */
  datatype Template =
    | HiddenSpan | SqrtTemplate | RadicTemplate | FractionTemplate | FractionTemplate2
    | DelimTemplate | IntegralTemplate | SubTemplate | SupTemplate | SuTemplate
    | OverTemplate | UnderTemplate | VariableTemplate
    | UnknownElement | Container | TextLeaf

  const SqrtSign: string := "\U{221A}"
  const IntegralSigns: seq<string> :=
    ["\U{222B}", "\U{222C}", "\U{222D}", "\U{222E}", "\U{222F}", "\U{2230}", "\U{2232}", "\U{2233}"]
  const SuStyleLeft: string :=
    "display:inline-block;margin-bottom:-0.3em;vertical-align:-0.4em;line-height:1.2em;font-size:80%;text-align:left"
  const SuStyleRight: string :=
    "display:inline-block;margin-bottom:-0.3em;vertical-align:-0.4em;line-height:1.2em;font-size:85%;text-align:right"
  const OverStyle: string := "position:relative; margin-right:-0.75em; right:0.75em; bottom:0.75em;;"
  const UnderStyle: string := "position:relative; margin-right:-0.75em; right:0.75em; top:0.45em;;"
  const ItalicStyle: string := "font-style:italic;"

  predicate IsSpan(f: Fragment)
  {
    f.Element? && f.name == "SPAN"
  }

  /** `display:none` spans hold the TeX source of the formula. */
  predicate IsHidden(f: Fragment)
  {
    IsSpan(f) && f.style == "display:none"
  }

  /** `<span class="nowrap">√<span>x</span></span>` */
  predicate IsSqrt(f: Fragment)
  {
    IsSpan(f) && f.className == "nowrap" && |f.children| == 2 && HasData(f.children[0], SqrtSign)
  }

  /** `<span class="nowrap"><sup>n</sup>√<span>x</span></span>` */
  predicate IsRadic(f: Fragment)
  {
    IsSpan(f) && f.className == "nowrap" && |f.children| == 3 && HasData(f.children[1], SqrtSign)
  }

  /** A slashed or stacked fraction: any `sfrac` span in the content script, exactly
      `sfrac nowrap` in the Safari extension. */
  predicate IsFraction(f: Fragment, rev: Revision)
  {
    IsSpan(f) && |f.children| == 3
    && (if rev == ContentScript then HasClass(f, "sfrac") else f.className == "sfrac nowrap")
  }

  predicate IsFraction2(f: Fragment, rev: Revision)
  {
    IsSpan(f) && |f.children| == 3
    && (if rev == ContentScript then HasClass(f, "frac") else f.className == "frac nowrap")
  }

  /** Large delimiters drawn from pieces: at least four children, the first and last
      pairs being the delimiter pieces. */
  predicate IsDelim(f: Fragment, rev: Revision)
  {
    f.Element? && |f.children| >= 4
    && (if rev == ContentScript then HasClass(f, "sfrac") else f.className == "sfrac nowrap;")
  }

  /** `<span><span>∫</span><span>upper<br>lower</span></span>` */
  predicate IsIntegral(f: Fragment)
  {
    IsSpan(f) && |f.children| == 2
    && Kids(f.children[0]) != [] && |Kids(f.children[0])| == 1
    && Kids(f.children[0])[0].TextRun? && Kids(f.children[0])[0].data in IntegralSigns
  }

  predicate IsSub(f: Fragment)
  {
    f.Element? && f.name == "SUB"
  }

  predicate IsSup(f: Fragment)
  {
    f.Element? && f.name == "SUP"
  }

  /** A stacked sub- and superscript. */
  predicate IsSu(f: Fragment)
  {
    IsSpan(f) && (f.style == SuStyleLeft || f.style == SuStyleRight)
  }

  predicate IsOver(f: Fragment)
  {
    IsSpan(f) && f.style == OverStyle
  }

  predicate IsUnder(f: Fragment)
  {
    IsSpan(f) && f.style == UnderStyle
  }

  /** An italic variable: `<i>x</i>` or an italic span around one text node. */
  predicate IsVariable(f: Fragment)
  {
    f.Element? && (f.name == "I" || (f.name == "SPAN" && f.style == ItalicStyle))
    && |f.children| == 1 && f.children[0].TextRun?
  }

  /** Whether the node passes a check, in a revision that has it. */
  predicate Matches(f: Fragment, t: Template, rev: Revision)
  {
    match t
    case HiddenSpan => rev != InlineUserScript && IsHidden(f)
    case SqrtTemplate => IsSqrt(f)
    case RadicTemplate => IsRadic(f)
    case FractionTemplate => rev != InlineUserScript && IsFraction(f, rev)
    case FractionTemplate2 => rev != InlineUserScript && IsFraction2(f, rev)
    case DelimTemplate => rev != InlineUserScript && IsDelim(f, rev)
    case IntegralTemplate => rev != InlineUserScript && IsIntegral(f)
    case SubTemplate => IsSub(f)
    case SupTemplate => IsSup(f)
    case SuTemplate => rev != InlineUserScript && IsSu(f)
    case OverTemplate => rev != InlineUserScript && IsOver(f)
    case UnderTemplate => rev != InlineUserScript && IsUnder(f)
    case VariableTemplate => rev != InlineUserScript && IsVariable(f)
    case UnknownElement => rev == ContentScript && f.Element? && f.name != "SPAN"
    case Container => Kids(f) != []
    case TextLeaf => true
  }

  /** The order in which each revision tries the checks. */
  function Order(rev: Revision): seq<Template>
  {
    match rev
    case ContentScript =>
      [HiddenSpan, SqrtTemplate, RadicTemplate, FractionTemplate, FractionTemplate2, DelimTemplate,
       IntegralTemplate, SubTemplate, SupTemplate, SuTemplate, OverTemplate, UnderTemplate,
       VariableTemplate, UnknownElement, Container, TextLeaf]
    case SafariExtension =>
      [HiddenSpan, SqrtTemplate, RadicTemplate, FractionTemplate, FractionTemplate2,
       IntegralTemplate, SubTemplate, SupTemplate, SuTemplate, OverTemplate, UnderTemplate,
       VariableTemplate, DelimTemplate, Container, TextLeaf]
    case InlineUserScript =>
      [SqrtTemplate, RadicTemplate, SubTemplate, SupTemplate, Container, TextLeaf]
  }

  /** The first template of `ts` from position `i` on that the node passes. */
  function FirstMatch(f: Fragment, ts: seq<Template>, i: nat, rev: Revision): Template
    decreases |ts| - i
  {
    if i >= |ts| then TextLeaf
    else if Matches(f, ts[i], rev) then ts[i]
    else FirstMatch(f, ts, i + 1, rev)
  }

  /** The dispatch at the top of `GetTreeFromElement`, branch by branch as each revision
      writes it. The content script only tries the templates on element nodes, and skips
      an element that is not a span; the other revisions run every check on text nodes as
      well, where each one fails. */
  function Classify(f: Fragment, rev: Revision): (t: Template)
    ensures Matches(f, t, rev)
  {
    match rev
    case ContentScript => ContentDispatch(f)
    case SafariExtension => SafariDispatch(f)
    case InlineUserScript => InlineDispatch(f)
  }

  function ContentDispatch(f: Fragment): (t: Template)
    ensures Matches(f, t, ContentScript)
  {
    var rev := ContentScript;
    if IsHidden(f) then HiddenSpan
    else if !f.Element? then TextLeaf
    else if IsSqrt(f) then SqrtTemplate
    else if IsRadic(f) then RadicTemplate
    else if IsFraction(f, rev) then FractionTemplate
    else if IsFraction2(f, rev) then FractionTemplate2
    else if IsDelim(f, rev) then DelimTemplate
    else if IsIntegral(f) then IntegralTemplate
    else if IsSub(f) then SubTemplate
    else if IsSup(f) then SupTemplate
    else if IsSu(f) then SuTemplate
    else if IsOver(f) then OverTemplate
    else if IsUnder(f) then UnderTemplate
    else if IsVariable(f) then VariableTemplate
    else if f.name != "SPAN" then UnknownElement
    else if f.children != [] then Container
    else TextLeaf
  }

  function SafariDispatch(f: Fragment): (t: Template)
    ensures Matches(f, t, SafariExtension)
  {
    var rev := SafariExtension;
    if IsHidden(f) then HiddenSpan
    else if IsSqrt(f) then SqrtTemplate
    else if IsRadic(f) then RadicTemplate
    else if IsFraction(f, rev) then FractionTemplate
    else if IsFraction2(f, rev) then FractionTemplate2
    else if IsIntegral(f) then IntegralTemplate
    else if IsSub(f) then SubTemplate
    else if IsSup(f) then SupTemplate
    else if IsSu(f) then SuTemplate
    else if IsOver(f) then OverTemplate
    else if IsUnder(f) then UnderTemplate
    else if IsVariable(f) then VariableTemplate
    else if IsDelim(f, rev) then DelimTemplate
    else if Kids(f) != [] then Container
    else TextLeaf
  }

  function InlineDispatch(f: Fragment): (t: Template)
    ensures Matches(f, t, InlineUserScript)
  {
    if IsSqrt(f) then SqrtTemplate
    else if IsRadic(f) then RadicTemplate
    else if IsSub(f) then SubTemplate
    else if IsSup(f) then SupTemplate
    else if Kids(f) != [] then Container
    else TextLeaf
  }

  /** On every node, each revision's dispatch picks the first template in its order that
      the node passes: no template is shadowed by a later branch. */
  lemma ClassifyIsFirstMatch(f: Fragment, rev: Revision)
    ensures Classify(f, rev) == FirstMatch(f, Order(rev), 0, rev)
  {
    match rev
    case ContentScript => ContentFirst(f);
    case SafariExtension => SafariFirst(f);
    case InlineUserScript => InlineFirst(f);
  }

  /** One step of the search: the template at position `i` if the node passes it. */
  lemma FirstMatchStep(f: Fragment, ts: seq<Template>, i: nat, rev: Revision)
    requires i < |ts|
    ensures FirstMatch(f, ts, i, rev) == if Matches(f, ts[i], rev) then ts[i] else FirstMatch(f, ts, i + 1, rev)
  {
  }

  lemma ContentFirst(f: Fragment)
    ensures Classify(f, ContentScript) == FirstMatch(f, Order(ContentScript), 0, ContentScript)
  {
    ContentFrom(f);
    ContentFrom4(f);
    ContentFrom8(f);
    ContentFrom10(f);
    ContentFrom12(f);
    ContentFrom14(f);
  }

  /** The content script's first four templates. */
  lemma ContentFrom(f: Fragment)
    ensures FirstMatch(f, Order(ContentScript), 0, ContentScript) ==
      if IsHidden(f) then HiddenSpan
      else if IsSqrt(f) then SqrtTemplate
      else if IsRadic(f) then RadicTemplate
      else if IsFraction(f, ContentScript) then FractionTemplate
      else FirstMatch(f, Order(ContentScript), 4, ContentScript)
  {
    var ts := Order(ContentScript);
    assert ts[0] == HiddenSpan && ts[1] == SqrtTemplate && ts[2] == RadicTemplate && ts[3] == FractionTemplate;
    FirstMatchStep(f, ts, 0, ContentScript);
    FirstMatchStep(f, ts, 1, ContentScript);
    FirstMatchStep(f, ts, 2, ContentScript);
    FirstMatchStep(f, ts, 3, ContentScript);
  }

  /** The content script's fifth to eighth templates. */
  lemma ContentFrom4(f: Fragment)
    ensures FirstMatch(f, Order(ContentScript), 4, ContentScript) ==
      if IsFraction2(f, ContentScript) then FractionTemplate2
      else if IsDelim(f, ContentScript) then DelimTemplate
      else if IsIntegral(f) then IntegralTemplate
      else if IsSub(f) then SubTemplate
      else FirstMatch(f, Order(ContentScript), 8, ContentScript)
  {
    var ts := Order(ContentScript);
    assert ts[4] == FractionTemplate2 && ts[5] == DelimTemplate && ts[6] == IntegralTemplate && ts[7] == SubTemplate;
    FirstMatchStep(f, ts, 4, ContentScript);
    FirstMatchStep(f, ts, 5, ContentScript);
    FirstMatchStep(f, ts, 6, ContentScript);
    FirstMatchStep(f, ts, 7, ContentScript);
  }

  /** The content script's ninth and tenth templates. */
  lemma ContentFrom8(f: Fragment)
    ensures FirstMatch(f, Order(ContentScript), 8, ContentScript) ==
      if IsSup(f) then SupTemplate
      else if IsSu(f) then SuTemplate
      else FirstMatch(f, Order(ContentScript), 10, ContentScript)
  {
    var ts := Order(ContentScript);
    assert ts[8] == SupTemplate && ts[9] == SuTemplate;
    FirstMatchStep(f, ts, 8, ContentScript);
    FirstMatchStep(f, ts, 9, ContentScript);
  }

  /** The content script's eleventh and twelfth templates. */
  lemma ContentFrom10(f: Fragment)
    ensures FirstMatch(f, Order(ContentScript), 10, ContentScript) ==
      if IsOver(f) then OverTemplate
      else if IsUnder(f) then UnderTemplate
      else FirstMatch(f, Order(ContentScript), 12, ContentScript)
  {
    var ts := Order(ContentScript);
    assert ts[10] == OverTemplate && ts[11] == UnderTemplate;
    FirstMatchStep(f, ts, 10, ContentScript);
    FirstMatchStep(f, ts, 11, ContentScript);
  }

  /** The content script's last template and its skip of unknown elements. */
  lemma ContentFrom12(f: Fragment)
    ensures FirstMatch(f, Order(ContentScript), 12, ContentScript) ==
      if IsVariable(f) then VariableTemplate
      else if f.Element? && f.name != "SPAN" then UnknownElement
      else FirstMatch(f, Order(ContentScript), 14, ContentScript)
  {
    var ts := Order(ContentScript);
    assert ts[12] == VariableTemplate && ts[13] == UnknownElement;
    FirstMatchStep(f, ts, 12, ContentScript);
    FirstMatchStep(f, ts, 13, ContentScript);
  }

  /** The content script's fall-backs. */
  lemma ContentFrom14(f: Fragment)
    ensures FirstMatch(f, Order(ContentScript), 14, ContentScript) ==
      if Kids(f) != [] then Container else TextLeaf
  {
    var ts := Order(ContentScript);
    assert ts[14] == Container && ts[15] == TextLeaf;
    FirstMatchStep(f, ts, 14, ContentScript);
    FirstMatchStep(f, ts, 15, ContentScript);
  }

  lemma SafariFirst(f: Fragment)
    ensures Classify(f, SafariExtension) == FirstMatch(f, Order(SafariExtension), 0, SafariExtension)
  {
    SafariFrom(f);
    SafariFrom4(f);
    SafariFrom8(f);
    SafariFrom10(f);
    SafariFrom12(f);
  }

  /** The Safari extension's first four templates. */
  lemma SafariFrom(f: Fragment)
    ensures FirstMatch(f, Order(SafariExtension), 0, SafariExtension) ==
      if IsHidden(f) then HiddenSpan
      else if IsSqrt(f) then SqrtTemplate
      else if IsRadic(f) then RadicTemplate
      else if IsFraction(f, SafariExtension) then FractionTemplate
      else FirstMatch(f, Order(SafariExtension), 4, SafariExtension)
  {
    var ts := Order(SafariExtension);
    assert ts[0] == HiddenSpan && ts[1] == SqrtTemplate && ts[2] == RadicTemplate && ts[3] == FractionTemplate;
    FirstMatchStep(f, ts, 0, SafariExtension);
    FirstMatchStep(f, ts, 1, SafariExtension);
    FirstMatchStep(f, ts, 2, SafariExtension);
    FirstMatchStep(f, ts, 3, SafariExtension);
  }

  /** The Safari extension's fifth to eighth templates. */
  lemma SafariFrom4(f: Fragment)
    ensures FirstMatch(f, Order(SafariExtension), 4, SafariExtension) ==
      if IsFraction2(f, SafariExtension) then FractionTemplate2
      else if IsIntegral(f) then IntegralTemplate
      else if IsSub(f) then SubTemplate
      else if IsSup(f) then SupTemplate
      else FirstMatch(f, Order(SafariExtension), 8, SafariExtension)
  {
    var ts := Order(SafariExtension);
    assert ts[4] == FractionTemplate2 && ts[5] == IntegralTemplate && ts[6] == SubTemplate && ts[7] == SupTemplate;
    FirstMatchStep(f, ts, 4, SafariExtension);
    FirstMatchStep(f, ts, 5, SafariExtension);
    FirstMatchStep(f, ts, 6, SafariExtension);
    FirstMatchStep(f, ts, 7, SafariExtension);
  }

  /** The Safari extension's ninth and tenth templates. */
  lemma SafariFrom8(f: Fragment)
    ensures FirstMatch(f, Order(SafariExtension), 8, SafariExtension) ==
      if IsSu(f) then SuTemplate
      else if IsOver(f) then OverTemplate
      else FirstMatch(f, Order(SafariExtension), 10, SafariExtension)
  {
    var ts := Order(SafariExtension);
    assert ts[8] == SuTemplate && ts[9] == OverTemplate;
    FirstMatchStep(f, ts, 8, SafariExtension);
    FirstMatchStep(f, ts, 9, SafariExtension);
  }

  /** The Safari extension's eleventh and twelfth templates. */
  lemma SafariFrom10(f: Fragment)
    ensures FirstMatch(f, Order(SafariExtension), 10, SafariExtension) ==
      if IsUnder(f) then UnderTemplate
      else if IsVariable(f) then VariableTemplate
      else FirstMatch(f, Order(SafariExtension), 12, SafariExtension)
  {
    var ts := Order(SafariExtension);
    assert ts[10] == UnderTemplate && ts[11] == VariableTemplate;
    FirstMatchStep(f, ts, 10, SafariExtension);
    FirstMatchStep(f, ts, 11, SafariExtension);
  }

  /** The Safari extension's delimiter template, tried last, and its fall-backs. */
  lemma SafariFrom12(f: Fragment)
    ensures FirstMatch(f, Order(SafariExtension), 12, SafariExtension) ==
      if IsDelim(f, SafariExtension) then DelimTemplate
      else if Kids(f) != [] then Container
      else TextLeaf
  {
    var ts := Order(SafariExtension);
    assert ts[12] == DelimTemplate && ts[13] == Container && ts[14] == TextLeaf;
    FirstMatchStep(f, ts, 12, SafariExtension);
    FirstMatchStep(f, ts, 13, SafariExtension);
    FirstMatchStep(f, ts, 14, SafariExtension);
  }

  lemma InlineFirst(f: Fragment)
    ensures Classify(f, InlineUserScript) == FirstMatch(f, Order(InlineUserScript), 0, InlineUserScript)
  {
    InlineFrom(f);
    InlineFrom3(f);
  }

  /** The user script's three first templates. */
  lemma InlineFrom(f: Fragment)
    ensures FirstMatch(f, Order(InlineUserScript), 0, InlineUserScript) ==
      if IsSqrt(f) then SqrtTemplate
      else if IsRadic(f) then RadicTemplate
      else if IsSub(f) then SubTemplate
      else FirstMatch(f, Order(InlineUserScript), 3, InlineUserScript)
  {
    var ts := Order(InlineUserScript);
    assert ts[0] == SqrtTemplate && ts[1] == RadicTemplate && ts[2] == SubTemplate;
    FirstMatchStep(f, ts, 0, InlineUserScript);
    FirstMatchStep(f, ts, 1, InlineUserScript);
    FirstMatchStep(f, ts, 2, InlineUserScript);
  }

  /** The user script's superscript template and its fall-backs. */
  lemma InlineFrom3(f: Fragment)
    ensures FirstMatch(f, Order(InlineUserScript), 3, InlineUserScript) ==
      if IsSup(f) then SupTemplate
      else if Kids(f) != [] then Container
      else TextLeaf
  {
    var ts := Order(InlineUserScript);
    assert ts[3] == SupTemplate && ts[4] == Container && ts[5] == TextLeaf;
    FirstMatchStep(f, ts, 3, InlineUserScript);
    FirstMatchStep(f, ts, 4, InlineUserScript);
    FirstMatchStep(f, ts, 5, InlineUserScript);
  }

  /** A text node is tokenized by every revision. */
  lemma TextNodesAreTokenized(d: string, rev: Revision)
    ensures Classify(TextRun(d), rev) == TextLeaf
  {
  }

  /** The revisions disagree on a subscript whose classes include `sfrac` and that has at
      least four children: the content script tries the delimiter template before the
      subscript template, the Safari extension after it. */
  lemma DelimBeforeSub(f: Fragment)
    requires f.Element? && f.name == "SUB" && HasClass(f, "sfrac") && |f.children| >= 4
    ensures Classify(f, ContentScript) == DelimTemplate
    ensures Classify(f, SafariExtension) == SubTemplate
  {
  }

  /** The content script recognises a fraction span by its `sfrac` class whatever other
      classes it has; the Safari extension only by the exact attribute `sfrac nowrap`, and
      otherwise takes the span for a plain row of its children. */
  lemma FractionClassTest(f: Fragment)
    requires IsSpan(f) && HasClass(f, "sfrac") && |f.children| == 3 && f.style == ""
    requires f.className != "nowrap" && f.className != "sfrac nowrap" && f.className != "frac nowrap"
    ensures Classify(f, ContentScript) == FractionTemplate
    ensures Classify(f, SafariExtension) == Container
  {
  }
}
