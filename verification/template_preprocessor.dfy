/** The preprocessing of the report template (Program.MergeCss, Program.MergeJavaScript and the
    part of Program.PrepareXsl that calls them): every stylesheet link in the head is replaced
    by an inline style element, and the first script element gets its source inlined.

    The template document is abstracted as its elements in document order. Each element carries
    its tag, its attributes, its text content, and whether it is a child of the document's first
    head element. The embedded resources are a map from resource name to text. */
module TemplatePreprocessor {
  import opened Outcomes

  datatype Element = Element(tag: string, attributes: map<string, string>, text: string, childOfHead: bool)

  const LinkTag := "link"
  const StyleTag := "style"
  const ScriptTag := "script"
  const Href := "href"
  const Src := "src"

  /** GetElementsByTagName(tag)[0]: the position of the first element with the tag, or |s|
      (a null node) when there is none. */
  function FirstWithTag(s: seq<Element>, tag: string): (r: nat)
    ensures r <= |s|
    ensures r < |s| ==> s[r].tag == tag
    ensures forall k :: 0 <= k < r ==> s[k].tag != tag
  {
    if s == [] then 0
    else if s[0].tag == tag then 0
    else 1 + FirstWithTag(s[1..], tag)
  }

  /** GetElementsByTagName(tag) copied into a list: the positions at or after `from` of the
      elements with the tag, in document order. */
  function TagPositions(s: seq<Element>, tag: string, from: nat): (r: seq<nat>)
    requires from <= |s|
    ensures forall n :: 0 <= n < |r| ==> from <= r[n] < |s| && s[r[n]].tag == tag
    ensures forall n :: 0 < n < |r| ==> r[n - 1] < r[n]
    decreases |s| - from
  {
    if from == |s| then []
    else if s[from].tag == tag then [from] + TagPositions(s, tag, from + 1)
    else TagPositions(s, tag, from + 1)
  }

  /** The snapshot misses no element with the tag: between two consecutive entries, before the
      first and after the last, no element has it. */
  lemma {:induction false} TagPositionsGap(s: seq<Element>, tag: string, from: nat, n: nat)
    requires from <= |s| && n <= |TagPositions(s, tag, from)|
    ensures var r := TagPositions(s, tag, from);
      var lo := if n == 0 then from else r[n - 1] + 1;
      var hi := if n < |r| then r[n] else |s|;
      forall k :: lo <= k < hi ==> s[k].tag != tag
    decreases |s| - from
  {
    if from < |s| {
      var r := TagPositions(s, tag, from);
      var r' := TagPositions(s, tag, from + 1);
      if s[from].tag == tag {
        assert r == [from] + r';
        if n > 0 {
          TagPositionsGap(s, tag, from + 1, n - 1);
          assert n < |r| ==> r[n] == r'[n - 1];
          assert n > 1 ==> r[n - 1] == r'[n - 2];
        }
      } else {
        assert r == r';
        TagPositionsGap(s, tag, from + 1, n);
      }
    }
  }

  /** The link names a stylesheet that is among the resources. */
  predicate Resolvable(e: Element, resources: map<string, string>) {
    Href in e.attributes && e.attributes[Href] in resources
  }

  /** What one turn of MergeCss's loop throws for link `e`, in the order the loop body meets the
      failures: a missing href attribute (its Value read on null), a missing resource (a null
      stream handed to StreamReader), a missing head (ReplaceChild on null), and a link that is
      not a child of head (ReplaceChild refuses it). */
  function LinkFault(e: Element, hasHead: bool, resources: map<string, string>): (c: Completion)
    ensures c.Normal? <==> Resolvable(e, resources) && hasHead && e.childOfHead
    ensures Href !in e.attributes ==> c == Abrupt(NullReference)
    ensures Href in e.attributes && e.attributes[Href] !in resources ==> c == Abrupt(ArgumentNull)
    ensures Resolvable(e, resources) && !hasHead ==> c == Abrupt(NullReference)
    ensures Resolvable(e, resources) && hasHead && !e.childOfHead ==> c == Abrupt(NotAChild)
  {
    if Href !in e.attributes then Abrupt(NullReference)
    else if e.attributes[Href] !in resources then Abrupt(ArgumentNull)
    else if !hasHead then Abrupt(NullReference)
    else if !e.childOfHead then Abrupt(NotAChild)
    else Normal
  }

  /** The style element that replaces link `e`: no attributes, the stylesheet as its text. */
  function StyleFor(e: Element, resources: map<string, string>): Element
    requires Resolvable(e, resources)
  {
    Element(StyleTag, map[], resources[e.attributes[Href]], true)
  }

  /** The element MergeCss leaves in place of `e`: its style element when `e` is a link. */
  function Inlined(e: Element, resources: map<string, string>): Element {
    if e.tag == LinkTag && Resolvable(e, resources) then StyleFor(e, resources) else e
  }

  /** The position of the first link on which MergeCss's loop throws, or |s| when none does. */
  function FirstCssFault(s: seq<Element>, hasHead: bool, resources: map<string, string>): (p: nat)
    ensures p <= |s|
    ensures p < |s| ==> s[p].tag == LinkTag && LinkFault(s[p], hasHead, resources).Abrupt?
    ensures forall k :: 0 <= k < p && s[k].tag == LinkTag ==> LinkFault(s[k], hasHead, resources).Normal?
  {
    if s == [] then 0
    else if s[0].tag == LinkTag && LinkFault(s[0], hasHead, resources).Abrupt? then 0
    else 1 + FirstCssFault(s[1..], hasHead, resources)
  }

  /** Every link replaced by its style element at the same position; no link remains and
      every other element is left as it was. */
  function InlineStyles(s: seq<Element>, resources: map<string, string>): (r: seq<Element>)
    requires forall k :: 0 <= k < |s| && s[k].tag == LinkTag ==> Resolvable(s[k], resources)
    ensures |r| == |s|
    ensures forall k :: 0 <= k < |s| ==> r[k] == Inlined(s[k], resources)
  {
    if s == [] then []
    else
      var rest := InlineStyles(s[1..], resources);
      var first := Inlined(s[0], resources);
      assert forall k :: 1 <= k < |s| ==> ([first] + rest)[k] == rest[k - 1];
      [first] + rest
  }

  /** After InlineStyles no link remains; each link has become its style element at the same
      position and every other element is as it was. */
  lemma InlineStylesAt(s: seq<Element>, resources: map<string, string>, k: nat)
    requires forall k :: 0 <= k < |s| && s[k].tag == LinkTag ==> Resolvable(s[k], resources)
    requires k < |s|
    ensures var r := InlineStyles(s, resources);
      && |r| == |s|
      && r[k].tag != LinkTag
      && (s[k].tag == LinkTag ==> r[k].tag == StyleTag && r[k].attributes == map[] && r[k].text == resources[s[k].attributes[Href]])
      && (s[k].tag != LinkTag ==> r[k] == s[k])
  {
  }

  /** What MergeJavaScript throws, in the order it meets the failures: no script element (a
      null node), no src attribute (its Value read on null), a missing resource. */
  function ScriptFault(s: seq<Element>, resources: map<string, string>): (c: Completion)
    ensures c.Normal? <==> var i := FirstWithTag(s, ScriptTag);
      i < |s| && Src in s[i].attributes && s[i].attributes[Src] in resources
  {
    var i := FirstWithTag(s, ScriptTag);
    if i == |s| then Abrupt(NullReference)
    else if Src !in s[i].attributes then Abrupt(NullReference)
    else if s[i].attributes[Src] !in resources then Abrupt(ArgumentNull)
    else Normal
  }

  /** The script element with its src attribute removed and the script as its text. */
  function InlineScript(e: Element, resources: map<string, string>): (r: Element)
    requires Src in e.attributes && e.attributes[Src] in resources
    ensures r.tag == e.tag && r.childOfHead == e.childOfHead
    ensures r.attributes.Keys == e.attributes.Keys - {Src}
    ensures forall a :: a in r.attributes ==> r.attributes[a] == e.attributes[a]
    ensures r.text == resources[e.attributes[Src]]
  {
    e.(attributes := e.attributes - {Src}, text := resources[e.attributes[Src]])
  }

  /** Inlining the stylesheets leaves the first script element where and as it was. */
  lemma InlineStylesKeepsFirstScript(s: seq<Element>, resources: map<string, string>)
    requires forall k :: 0 <= k < |s| && s[k].tag == LinkTag ==> Resolvable(s[k], resources)
    ensures var r := InlineStyles(s, resources); var i := FirstWithTag(s, ScriptTag);
      FirstWithTag(r, ScriptTag) == i && (i < |s| ==> r[i] == s[i])
  {
    var r := InlineStyles(s, resources);
    assert forall k :: 0 <= k < |s| ==> (r[k].tag == ScriptTag <==> s[k].tag == ScriptTag);
    FirstWithTagAgrees(s, r, ScriptTag);
  }

  /** Two documents whose elements agree position by position on having the tag have their
      first element with the tag at the same position. */
  lemma FirstWithTagAgrees(s: seq<Element>, r: seq<Element>, tag: string)
    requires |s| == |r|
    requires forall k :: 0 <= k < |s| ==> (r[k].tag == tag <==> s[k].tag == tag)
    ensures FirstWithTag(r, tag) == FirstWithTag(s, tag)
  {
  }

  /** Inlining the script keeps every tag, so no link appears and the first script stays put. */
  lemma InlineScriptKeepsTags(t: seq<Element>, resources: map<string, string>)
    requires ScriptFault(t, resources).Normal?
    ensures var i := FirstWithTag(t, ScriptTag); var u := t[i := InlineScript(t[i], resources)];
      && (forall k :: 0 <= k < |t| ==> u[k].tag == t[k].tag)
      && FirstWithTag(u, ScriptTag) == i
  {
    var i := FirstWithTag(t, ScriptTag);
    var u := t[i := InlineScript(t[i], resources)];
    assert forall k :: 0 <= k < |t| ==> u[k].tag == t[k].tag;
    FirstWithTagAgrees(t, u, ScriptTag);
  }

  /** Every link before `pos` gets through a turn of MergeCss's loop without throwing. */
  predicate LinksPassBefore(s: seq<Element>, pos: nat, hasHead: bool, resources: map<string, string>) {
    forall k :: 0 <= k < pos && k < |s| && s[k].tag == LinkTag ==> LinkFault(s[k], hasHead, resources).Normal?
  }

  /** `e` is `s` with the elements before `pos` inlined and the rest untouched. */
  predicate InlinedBefore(s: seq<Element>, e: seq<Element>, pos: nat, resources: map<string, string>) {
    |e| == |s| && forall k :: 0 <= k < |s| ==> e[k] == if k < pos then Inlined(s[k], resources) else s[k]
  }

  /** Positions that hold no link change neither what got through nor what is inlined, so the
      gap up to the next snapshot entry (or to the end) adds nothing. */
  lemma PassGap(s: seq<Element>, e: seq<Element>, toChange: seq<nat>, n: nat, hasHead: bool, resources: map<string, string>)
    requires toChange == TagPositions(s, LinkTag, 0) && n <= |toChange|
    requires var lo := if n == 0 then 0 else toChange[n - 1] + 1;
      LinksPassBefore(s, lo, hasHead, resources) && InlinedBefore(s, e, lo, resources)
    ensures var hi := if n < |toChange| then toChange[n] else |s|;
      LinksPassBefore(s, hi, hasHead, resources) && InlinedBefore(s, e, hi, resources)
  {
    TagPositionsGap(s, LinkTag, 0, n);
  }

  /** The first link that throws is the first one whose LinkFault is abrupt. */
  lemma FirstCssFaultAt(s: seq<Element>, pos: nat, hasHead: bool, resources: map<string, string>)
    requires pos <= |s| && LinksPassBefore(s, pos, hasHead, resources)
    requires pos < |s| ==> s[pos].tag == LinkTag && LinkFault(s[pos], hasHead, resources).Abrupt?
    ensures FirstCssFault(s, hasHead, resources) == pos
  {
  }

  /** A document whose elements before `pos` are inlined and the rest untouched is the inlined
      prefix followed by the original suffix. */
  lemma PrefixInlined(s: seq<Element>, e: seq<Element>, pos: nat, hasHead: bool, resources: map<string, string>)
    requires pos <= |s| && LinksPassBefore(s, pos, hasHead, resources) && InlinedBefore(s, e, pos, resources)
    ensures e == InlineStyles(s[..pos], resources) + s[pos..]
  {
    var r := InlineStyles(s[..pos], resources);
    assert forall k :: 0 <= k < |e| ==> e[k] == (r + s[pos..])[k];
  }

  /** Inlining links that get through keeps children of head only in a document with a head. */
  lemma InlinedKeepsHead(s: seq<Element>, e: seq<Element>, pos: nat, hasHead: bool, resources: map<string, string>)
    requires forall k :: 0 <= k < |s| && s[k].childOfHead ==> hasHead
    requires LinksPassBefore(s, pos, hasHead, resources) && InlinedBefore(s, e, pos, resources)
    ensures forall k :: 0 <= k < |e| && e[k].childOfHead ==> hasHead
  {
    forall k | 0 <= k < |e| && e[k].childOfHead ensures hasHead {
      if k < pos && s[k].tag == LinkTag && Resolvable(s[k], resources) {
        assert LinkFault(s[k], hasHead, resources).Normal?;
      }
    }
  }

  /** What MergeCss leaves: the links before the first one that throws are inlined, the rest of
      the document is untouched, and the completion is that link's fault, or Normal. */
  predicate CssMerged(s: seq<Element>, e: seq<Element>, hasHead: bool, resources: map<string, string>, c: Completion) {
    var p := FirstCssFault(s, hasHead, resources);
    && e == InlineStyles(s[..p], resources) + s[p..]
    && c == if p < |s| then LinkFault(s[p], hasHead, resources) else Normal
  }

  /** MergeCss's loop stops at `pos`, the first link that throws, or at the end of the document. */
  lemma CssStopsAt(s: seq<Element>, e: seq<Element>, pos: nat, hasHead: bool, resources: map<string, string>)
    requires forall k :: 0 <= k < |s| && s[k].childOfHead ==> hasHead
    requires pos <= |s| && LinksPassBefore(s, pos, hasHead, resources) && InlinedBefore(s, e, pos, resources)
    requires pos < |s| ==> s[pos].tag == LinkTag && LinkFault(s[pos], hasHead, resources).Abrupt?
    ensures CssMerged(s, e, hasHead, resources, if pos < |s| then LinkFault(s[pos], hasHead, resources) else Normal)
    ensures forall k :: 0 <= k < |e| && e[k].childOfHead ==> hasHead
  {
    FirstCssFaultAt(s, pos, hasHead, resources);
    PrefixInlined(s, e, pos, hasHead, resources);
    InlinedKeepsHead(s, e, pos, hasHead, resources);
  }

  /** One turn of MergeCss's loop: replacing link `pos`, which gets through, extends the
      replaced prefix up to and including `pos`. */
  lemma ReplaceStep(s: seq<Element>, e: seq<Element>, pos: nat, hasHead: bool, resources: map<string, string>)
    requires pos < |s| && s[pos].tag == LinkTag && LinkFault(s[pos], hasHead, resources).Normal?
    requires LinksPassBefore(s, pos, hasHead, resources) && InlinedBefore(s, e, pos, resources)
    ensures LinksPassBefore(s, pos + 1, hasHead, resources)
    ensures InlinedBefore(s, e[pos := StyleFor(s[pos], resources)], pos + 1, resources)
  {
  }

  /** When no link throws, MergeCss has inlined every stylesheet: no link is left, and the first
      script element and what MergeJavaScript does with it are as in the original document. */
  lemma CssSucceeded(s: seq<Element>, e: seq<Element>, hasHead: bool, resources: map<string, string>)
    requires FirstCssFault(s, hasHead, resources) == |s|
    requires e == InlineStyles(s[..|s|], resources) + s[|s|..]
    ensures |e| == |s| && forall k :: 0 <= k < |e| ==> e[k].tag != LinkTag
    ensures ScriptFault(e, resources) == ScriptFault(s, resources)
    ensures var i := FirstWithTag(s, ScriptTag); FirstWithTag(e, ScriptTag) == i && (i < |s| ==> e[i] == s[i])
  {
    assert s[..|s|] == s && s[|s|..] == [];
    assert e == InlineStyles(s, resources);
    InlineStylesKeepsFirstScript(s, resources);
    ScriptFaultAfterStyles(s, resources);
  }

  /** When every link has its stylesheet and is a child of head, MergeCss completes normally,
      keeps the number of elements, and leaves no link: the link at position `k` has become a
      style element holding its stylesheet, and any other element is unchanged. */
  lemma CssMergedAllLinksResolve(s: seq<Element>, e: seq<Element>, hasHead: bool, resources: map<string, string>, c: Completion, k: nat)
    requires forall k :: 0 <= k < |s| && s[k].tag == LinkTag ==> Resolvable(s[k], resources) && s[k].childOfHead
    requires hasHead && CssMerged(s, e, hasHead, resources, c)
    requires k < |s|
    ensures c == Normal && |e| == |s| && e[k].tag != LinkTag
    ensures s[k].tag == LinkTag ==> e[k].tag == StyleTag && e[k].attributes == map[] && e[k].text == resources[s[k].attributes[Href]]
    ensures s[k].tag != LinkTag ==> e[k] == s[k]
  {
    FirstCssFaultAt(s, |s|, hasHead, resources);
    assert s[..|s|] == s && s[|s|..] == [];
    InlineStylesAt(s, resources, k);
  }

  /** The inlined stylesheets make the script's outcome no different from the original's. */
  lemma ScriptFaultAfterStyles(s: seq<Element>, resources: map<string, string>)
    requires forall k :: 0 <= k < |s| && s[k].tag == LinkTag ==> Resolvable(s[k], resources)
    ensures ScriptFault(InlineStyles(s, resources), resources) == ScriptFault(s, resources)
  {
    InlineStylesKeepsFirstScript(s, resources);
  }

  /** The template document, loaded once and edited in place by the preprocessing steps. */
  class XslDocument {
    var elements: seq<Element>
    var hasHead: bool

    /** Only a document that has a head has children of head. */
    ghost predicate Valid()
      reads this
    {
      forall k :: 0 <= k < |elements| && elements[k].childOfHead ==> hasHead
    }

    constructor (elements: seq<Element>, hasHead: bool)
      requires forall k :: 0 <= k < |elements| && elements[k].childOfHead ==> hasHead
      ensures Valid() && this.elements == elements && this.hasHead == hasHead
    {
      this.elements := elements;
      this.hasHead := hasHead;
    }

    /** MergeCss: takes a snapshot of the link elements, then replaces each, in document order,
        by a style element holding the stylesheet, at the same position in head. An exception
        stops the loop with the earlier links already replaced. */
    method MergeCss(resources: map<string, string>) returns (c: Completion)
      requires Valid()
      modifies this
      ensures Valid() && hasHead == old(hasHead)
      ensures CssMerged(old(elements), elements, hasHead, resources, c)
    {
      ghost var s := elements;
      var toChangeList := TagPositions(elements, LinkTag, 0);
      var n := 0;
      ghost var done := 0;
      while n < |toChangeList|
        invariant 0 <= n <= |toChangeList|
        invariant done == if n == 0 then 0 else toChangeList[n - 1] + 1
        invariant done <= |s|
        invariant hasHead == old(hasHead)
        invariant LinksPassBefore(s, done, hasHead, resources)
        invariant InlinedBefore(s, elements, done, resources)
      {
        var pos := toChangeList[n];
        PassGap(s, elements, toChangeList, n, hasHead, resources);
        var xmlElement := elements[pos];
        c := LinkFault(xmlElement, hasHead, resources);
        if c.Abrupt? {
          CssStopsAt(s, elements, pos, hasHead, resources);
          return;
        }
        var styleEl := StyleFor(xmlElement, resources);
        ReplaceStep(s, elements, pos, hasHead, resources);
        elements := elements[pos := styleEl];
        n, done := n + 1, pos + 1;
      }
      PassGap(s, elements, toChangeList, n, hasHead, resources);
      c := Normal;
      CssStopsAt(s, elements, |s|, hasHead, resources);
    }

    /** MergeJavaScript: the first script element loses its src attribute and gets the script
        it named as its text. Every failure comes before the edit. */
    method MergeJavaScript(resources: map<string, string>) returns (c: Completion)
      requires Valid()
      modifies this
      ensures Valid() && hasHead == old(hasHead)
      ensures c == ScriptFault(old(elements), resources)
      ensures c.Abrupt? ==> elements == old(elements)
      ensures c.Normal? ==> var i := FirstWithTag(old(elements), ScriptTag);
        i < |old(elements)| && elements == old(elements)[i := InlineScript(old(elements)[i], resources)]
    {
      var i := FirstWithTag(elements, ScriptTag);
      if i == |elements| {
        return Abrupt(NullReference);
      }
      var scriptEl := elements[i];
      if Src !in scriptEl.attributes {
        return Abrupt(NullReference);
      }
      var name := scriptEl.attributes[Src];
      if name !in resources {
        return Abrupt(ArgumentNull);
      }
      var script := resources[name];
      elements := elements[i := scriptEl.(attributes := scriptEl.attributes - {Src}, text := script)];
      c := Normal;
    }

    /** PrepareXsl after loading: MergeCss, then MergeJavaScript. On success no stylesheet link
        is left and the first script element carries its script inline instead of a src. */
    method PrepareXsl(resources: map<string, string>) returns (c: Completion)
      requires Valid()
      modifies this
      ensures Valid() && hasHead == old(hasHead)
      ensures c.Normal? <==>
        FirstCssFault(old(elements), hasHead, resources) == |old(elements)| && ScriptFault(old(elements), resources).Normal?
      ensures c.Normal? ==> var i := FirstWithTag(old(elements), ScriptTag);
        elements == InlineStyles(old(elements), resources)[i := InlineScript(old(elements)[i], resources)]
      ensures FirstCssFault(old(elements), hasHead, resources) < |old(elements)| ==>
        c.Abrupt? && CssMerged(old(elements), elements, hasHead, resources, c)
      ensures FirstCssFault(old(elements), hasHead, resources) == |old(elements)| && c.Abrupt? ==>
        c == ScriptFault(old(elements), resources) && elements == InlineStyles(old(elements), resources)
      ensures c.Normal? ==> |elements| == |old(elements)| && forall k :: 0 <= k < |elements| ==> elements[k].tag != LinkTag
      ensures c.Normal? ==> var i := FirstWithTag(old(elements), ScriptTag);
        && i == FirstWithTag(elements, ScriptTag) && i < |elements|
        && Src !in elements[i].attributes
        && elements[i].text == resources[old(elements)[i].attributes[Src]]
    {
      ghost var s := elements;
      c := MergeCss(resources);
      if c.Abrupt? {
        return;
      }
      CssSucceeded(s, elements, hasHead, resources);
      ghost var styled := elements;
      c := MergeJavaScript(resources);
      if c.Normal? {
        InlineScriptKeepsTags(styled, resources);
      }
    }
  }
}
