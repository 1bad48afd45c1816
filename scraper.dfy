/**
 * The article extractor (scraper.py): a primary extractor that walks the
 * article container's elements in document order, and a fallback that
 * post-processes the HTML an extraction library returns.
 *
 * Fetching the page, parsing it into elements, and the extraction library
 * are outside the model: their results are inputs (`fetched`, a `parse`
 * function to a `Page`, an `extract` function to an `Extraction`).
 */
module Scraper {
  import opened Wrappers
  import opened Text
  import opened Patterns
  import opened Markup

  datatype HeadingLevel = H1 | H2 | H3

  function HeadingName(l: HeadingLevel): string {
    match l
    case H1 => "h1"
    case H2 => "h2"
    case H3 => "h3"
  }

  /** The `src` and `data-src` attributes of an `<img>`. */
  datatype ImageAttrs = ImageAttrs(src: Option<string>, dataSrc: Option<string>)

  /**
   * An element of the container, after the pre-cleaning, with its text as
   * `get_text(strip=True)` returns it. A figure carries its first `<img>`, if any.
   */
  datatype Element =
    | P(text: string)
    | H(level: HeadingLevel, text: string)
    | Img(attrs: ImageAttrs)
    | Figure(img: Option<ImageAttrs>)

  /**
   * What the parser finds in a page: the text of the first `<h1>`, the
   * containers in the order they are tried (`article`, `div.post-content`,
   * `div#article-body`, `div.article-body`, `div.entry-content`,
   * `div.td-post-content`, `main`) and `<body>`; each as its elements.
   */
  datatype Page = Page(h1: Option<string>, containers: seq<Option<seq<Element>>>, body: Option<seq<Element>>)

  /** What the extraction library returns: the metadata title and the content HTML. */
  datatype Extraction = Extraction(metaTitle: Option<string>, content: Option<string>)

  /** An extractor's result dictionary. */
  datatype Extracted = Extracted(title: string, contentHtml: string, imageUrl: Option<string>, shortDescription: string)

  /** The dictionary `scrape_article_content` returns: the extraction plus `raw_html`. */
  datatype Scraped = Scraped(article: Extracted, rawHtml: string)

  // ---------------------------------------------------------------- images

  /** The denylist of the primary extractor (scraper.py:118). */
  const PrimaryDenylist: seq<string> := ["logo", "avatar", "icon", "spinner", ".gif", "data:image"]

  /** The denylist of the fallback (scraper.py:228): it lacks `data:image`. */
  const FallbackDenylist: seq<string> := ["logo", "avatar", "icon", "spinner", ".gif"]

  /** Some denylisted word occurs in the lower-cased source. */
  predicate Denied(src: string, denylist: seq<string>) {
    exists k :: 0 <= k < |denylist| && Contains(Lower(src), denylist[k])
  }

  /** `img_tag.get('src') or img_tag.get('data-src') or ''` */
  function ImageSource(a: ImageAttrs): string {
    if a.src.Some? && a.src.value != "" then a.src.value
    else if a.dataSrc.Some? && a.dataSrc.value != "" then a.dataSrc.value
    else ""
  }

  /** The image an element stands for, if any. */
  function ImageOf(e: Element): Option<ImageAttrs> {
    match e
    case Img(a) => Some(a)
    case Figure(o) => o
    case _ => None
  }

  /** The primary extractor's image filter, apart from the seen-before test. */
  predicate Acceptable(src: string) {
    src != "" && StartsWith(src, "http") && !Denied(src, PrimaryDenylist)
  }

  /** The element is an image whose source the filter accepts. */
  predicate AcceptedImage(e: Element) {
    ImageOf(e).Some? && Acceptable(ImageSource(ImageOf(e).value))
  }

  /** The accepted source of an element; only meaningful when `AcceptedImage(e)`. */
  function SourceOf(e: Element): string {
    if ImageOf(e).Some? then ImageSource(ImageOf(e).value) else ""
  }

  // ---------------------------------------------------------------- the walk

  /** `content_html`, `short_description`, `seen_images` and `main_image_url` during the walk. */
  datatype WalkState = WalkState(content: string, description: string, seen: set<string>, mainImage: Option<string>)

  const Start: WalkState := WalkState("", "", {}, None)

  /** `f"<{name}>{text}</{name}>\n\n"` */
  function Block(name: string, text: string): string {
    "<" + name + ">" + text + "</" + name + ">\n\n"
  }

  /** `f'<img src="{src}">\n\n'` */
  function ImageBlock(src: string): string {
    "<img src=\"" + src + "\">\n\n"
  }

  /** The short description made from a paragraph's text (scraper.py:101-104). */
  function Description(text: string): string {
    TrimPunct(if |text| > 300 then text[..300] else text) + (if |text| > 300 then "..." else "")
  }

  /** A text element survives the filter of scraper.py:97. */
  predicate KeptText(e: Element) {
    (e.P? && e.text != "" && |e.text| >= 20) || (e.H? && e.text != "")
  }

  function AddImage(w: WalkState, src: string): WalkState {
    if !Acceptable(src) || src in w.seen then w
    else w.(content := w.content + ImageBlock(src),
            seen := w.seen + {src},
            mainImage := if w.mainImage.None? then Some(src) else w.mainImage)
  }

  /** One iteration of the loop of scraper.py:94-124. */
  function Step(w: WalkState, e: Element): WalkState {
    match e
    case P(text) =>
      if text == "" || |text| < 20 then w
      else w.(content := w.content + Block("p", text),
              description := if w.description == "" then Description(text) else w.description)
    case H(l, text) =>
      if text == "" then w else w.(content := w.content + Block(HeadingName(l), text))
    case Img(a) => AddImage(w, ImageSource(a))
    case Figure(o) => if o.None? then w else AddImage(w, ImageSource(o.value))
  }

  /** The state after the loop has visited `elems`, in order. */
  function Walk(elems: seq<Element>): WalkState
    decreases |elems|
  {
    if |elems| == 0 then Start else Step(Walk(elems[..|elems| - 1]), elems[|elems| - 1])
  }

  /** Visiting one more element is one more step. */
  lemma WalkSnoc(a: seq<Element>, e: Element)
    ensures Walk(a + [e]) == Step(Walk(a), e)
  {
    assert (a + [e])[..|a|] == a;
  }

  /** The source of the first image the filter accepts, found from the front. */
  function FirstAccepted(elems: seq<Element>): Option<string>
    decreases |elems|
  {
    if |elems| == 0 then None
    else if AcceptedImage(elems[0]) then Some(SourceOf(elems[0]))
    else FirstAccepted(elems[1..])
  }

  /** The description of the first kept paragraph that yields a non-empty one, found from the front. */
  function FirstDescription(elems: seq<Element>): string
    decreases |elems|
  {
    if |elems| == 0 then ""
    else if KeptText(elems[0]) && elems[0].P? && Description(elems[0].text) != "" then Description(elems[0].text)
    else FirstDescription(elems[1..])
  }

  lemma {:induction false} FirstAcceptedSnoc(a: seq<Element>, e: Element)
    ensures FirstAccepted(a + [e]) ==
      if FirstAccepted(a).Some? then FirstAccepted(a)
      else if AcceptedImage(e) then Some(SourceOf(e)) else None
    decreases |a|
  {
    if |a| == 0 {
      assert a + [e] == [e];
      assert [e][1..] == [];
    } else {
      assert (a + [e])[0] == a[0];
      assert (a + [e])[1..] == a[1..] + [e];
      FirstAcceptedSnoc(a[1..], e);
    }
  }

  lemma {:induction false} FirstDescriptionSnoc(a: seq<Element>, e: Element)
    ensures FirstDescription(a + [e]) ==
      if FirstDescription(a) != "" then FirstDescription(a)
      else if KeptText(e) && e.P? then Description(e.text) else ""
    decreases |a|
  {
    if |a| == 0 {
      assert a + [e] == [e];
      assert [e][1..] == [];
    } else {
      assert (a + [e])[0] == a[0];
      assert (a + [e])[1..] == a[1..] + [e];
      FirstDescriptionSnoc(a[1..], e);
    }
  }

  /** What the loop keeps between iterations. */
  predicate WalkInvariant(w: WalkState) {
    (w.mainImage.None? <==> w.seen == {})
    && (w.seen != {} ==> w.content != "")
    && (w.content == "" || w.content[0] == '<')
    && (forall u :: u in w.seen ==> Acceptable(u))
  }

  lemma StepKeepsInvariant(w: WalkState, e: Element)
    requires WalkInvariant(w)
    ensures WalkInvariant(Step(w, e))
    ensures Step(w, e).content == "" <==> w.content == "" && !KeptText(e) && !AcceptedImage(e)
  {
    var w' := Step(w, e);
    if w.content != "" {
      assert w'.content[0] == w.content[0];
    }
  }

  /**
   * The main image is the first image the filter accepts, anywhere in the
   * container: no earlier image can have been seen already.
   */
  lemma {:induction false} MainImageIsFirstAccepted(elems: seq<Element>)
    ensures WalkInvariant(Walk(elems))
    ensures Walk(elems).mainImage == FirstAccepted(elems)
    decreases |elems|
  {
    if |elems| > 0 {
      var a := elems[..|elems| - 1];
      var e := elems[|elems| - 1];
      assert elems == a + [e];
      MainImageIsFirstAccepted(a);
      WalkSnoc(a, e);
      StepKeepsInvariant(Walk(a), e);
      FirstAcceptedSnoc(a, e);
    }
  }

  lemma StepDescription(w: WalkState, e: Element)
    ensures Step(w, e).description ==
      if w.description != "" then w.description
      else if KeptText(e) && e.P? then Description(e.text) else ""
  {
  }

  /** The short description comes from the first kept paragraph that yields one. */
  lemma {:induction false} DescriptionIsFirst(elems: seq<Element>)
    ensures Walk(elems).description == FirstDescription(elems)
    decreases |elems|
  {
    if |elems| > 0 {
      var a := elems[..|elems| - 1];
      var e := elems[|elems| - 1];
      assert elems == a + [e];
      DescriptionIsFirst(a);
      WalkSnoc(a, e);
      StepDescription(Walk(a), e);
      FirstDescriptionSnoc(a, e);
    }
  }

  /**
   * The set of seen images is exactly the set of accepted image sources of
   * the container: every source in it passed the filter, and no accepted
   * source is missed.
   */
  lemma {:induction false} SeenIsAcceptedSources(elems: seq<Element>)
    ensures forall u :: u in Walk(elems).seen <==>
      exists i :: 0 <= i < |elems| && AcceptedImage(elems[i]) && SourceOf(elems[i]) == u
    decreases |elems|
  {
    if |elems| > 0 {
      var a := elems[..|elems| - 1];
      var e := elems[|elems| - 1];
      assert elems == a + [e];
      SeenIsAcceptedSources(a);
      WalkSnoc(a, e);
      forall u ensures u in Walk(elems).seen <==>
        exists i :: 0 <= i < |elems| && AcceptedImage(elems[i]) && SourceOf(elems[i]) == u
      {
        if u in Walk(elems).seen {
          if u in Walk(a).seen {
            var i :| 0 <= i < |a| && AcceptedImage(a[i]) && SourceOf(a[i]) == u;
            assert elems[i] == a[i];
          } else {
            assert AcceptedImage(elems[|a|]) && SourceOf(elems[|a|]) == u;
          }
        }
        if exists i :: 0 <= i < |elems| && AcceptedImage(elems[i]) && SourceOf(elems[i]) == u {
          var i :| 0 <= i < |elems| && AcceptedImage(elems[i]) && SourceOf(elems[i]) == u;
          if i < |a| {
            assert a[i] == elems[i];
          }
        }
      }
    }
  }

  /** The loop produces no content exactly when no element survives its filters. */
  lemma {:induction false} ContentEmptyIff(elems: seq<Element>)
    ensures Walk(elems).content == "" <==>
      forall i :: 0 <= i < |elems| ==> !KeptText(elems[i]) && !AcceptedImage(elems[i])
    decreases |elems|
  {
    if |elems| > 0 {
      var a := elems[..|elems| - 1];
      var e := elems[|elems| - 1];
      assert elems == a + [e];
      ContentEmptyIff(a);
      MainImageIsFirstAccepted(a);
      WalkSnoc(a, e);
      StepKeepsInvariant(Walk(a), e);
      assert forall i :: 0 <= i < |a| ==> a[i] == elems[i];
    }
  }

  /** `e` is an accepted image, and no element of `pre` is an accepted image with the same source. */
  predicate NewSource(pre: seq<Element>, e: Element) {
    AcceptedImage(e) &&
    forall j :: 0 <= j < |pre| ==> !(AcceptedImage(pre[j]) && SourceOf(pre[j]) == SourceOf(e))
  }

  /**
   * The HTML an element contributes to `content_html` after the elements
   * `pre`: a kept paragraph or heading as its block, an image as its block
   * only the first time its source is accepted, anything else nothing.
   */
  function Contribution(pre: seq<Element>, e: Element): string {
    match e
    case P(text) => if KeptText(e) then Block("p", text) else ""
    case H(l, text) => if text != "" then Block(HeadingName(l), text) else ""
    case Img(_) => if NewSource(pre, e) then ImageBlock(SourceOf(e)) else ""
    case Figure(_) => if NewSource(pre, e) then ImageBlock(SourceOf(e)) else ""
  }

  /** The contributions of elements `0..n`, in document order. */
  function Blocks(elems: seq<Element>, n: nat): string
    requires n <= |elems|
  {
    if n == 0 then "" else Blocks(elems, n - 1) + Contribution(elems[..n - 1], elems[n - 1])
  }

  /** What an element contributes depends only on it and the elements before it. */
  lemma {:induction false} BlocksOfPrefix(a: seq<Element>, e: Element, n: nat)
    requires n <= |a|
    ensures Blocks(a + [e], n) == Blocks(a, n)
    decreases n
  {
    if n > 0 {
      BlocksOfPrefix(a, e, n - 1);
      assert (a + [e])[..n - 1] == a[..n - 1];
      assert (a + [e])[n - 1] == a[n - 1];
    }
  }

  /** A step appends what the element contributes, given a seen set holding the earlier accepted sources. */
  lemma {:induction false} StepEmitsFrom(w: WalkState, a: seq<Element>, e: Element)
    requires forall u :: u in w.seen <==> exists j :: 0 <= j < |a| && AcceptedImage(a[j]) && SourceOf(a[j]) == u
    ensures Step(w, e).content == w.content + Contribution(a, e)
  {
    if ImageOf(e).Some? {
      var src := ImageSource(ImageOf(e).value);
      assert SourceOf(e) == src;
      if AcceptedImage(e) && src in w.seen {
        var j :| 0 <= j < |a| && AcceptedImage(a[j]) && SourceOf(a[j]) == src;
        assert !NewSource(a, e);
      }
    }
  }

  /**
   * `content_html` is the concatenation, in document order, of what each
   * element contributes: every kept paragraph and heading, and each accepted
   * image source once, at its first accepted occurrence.
   */
  lemma {:induction false} ContentIsBlocks(elems: seq<Element>)
    ensures Walk(elems).content == Blocks(elems, |elems|)
    decreases |elems|
  {
    if |elems| > 0 {
      var a := elems[..|elems| - 1];
      var e := elems[|elems| - 1];
      assert elems == a + [e];
      ContentIsBlocks(a);
      WalkSnoc(a, e);
      SeenIsAcceptedSources(a);
      StepEmitsFrom(Walk(a), a, e);
      BlocksOfPrefix(a, e, |a|);
      assert elems[..|a|] == a;
    }
  }

  /** Element `i` contributes its image: it is the first accepted image with its source. */
  predicate FirstOfSource(elems: seq<Element>, i: int)
    requires 0 <= i < |elems|
  {
    NewSource(elems[..i], elems[i])
  }

  /**
   * The image blocks come from elements with pairwise different sources, and
   * every accepted source has one: no source appears twice in the content,
   * and none is left out.
   */
  lemma {:induction false} ImagesEmittedOnce(elems: seq<Element>, i: int)
    requires 0 <= i < |elems| && AcceptedImage(elems[i])
    ensures forall j :: 0 <= j < i && FirstOfSource(elems, j) && FirstOfSource(elems, i) ==>
      SourceOf(elems[j]) != SourceOf(elems[i])
    ensures exists j :: 0 <= j <= i && FirstOfSource(elems, j) && SourceOf(elems[j]) == SourceOf(elems[i])
    decreases i
  {
    forall j | 0 <= j < i && FirstOfSource(elems, i)
      ensures !(AcceptedImage(elems[j]) && SourceOf(elems[j]) == SourceOf(elems[i]))
    {
      assert elems[..i][j] == elems[j];
    }
    if !FirstOfSource(elems, i) {
      var j :| 0 <= j < i && AcceptedImage(elems[..i][j]) && SourceOf(elems[..i][j]) == SourceOf(elems[i]);
      assert elems[..i][j] == elems[j];
      ImagesEmittedOnce(elems, j);
      var k :| 0 <= k <= j && FirstOfSource(elems, k) && SourceOf(elems[k]) == SourceOf(elems[j]);
      assert k <= i;
    } else {
      assert FirstOfSource(elems, i) && SourceOf(elems[i]) == SourceOf(elems[i]);
    }
  }

  /** The short description is at most 303 characters, with `...` exactly after a cut. */
  lemma DescriptionShape(text: string)
    ensures |Description(text)| <= 303
    ensures |text| > 300 ==> EndsWith(Description(text), "...")
    ensures |text| <= 300 ==> Description(text) == TrimPunct(text)
  {
    if |text| > 300 {
      var d := TrimPunct(text[..300]);
      assert Description(text) == d + "...";
      assert (d + "...")[|d + "..."| - 3..] == "...";
    } else {
      assert Description(text) == TrimPunct(text) + "";
    }
  }

  /** `candidates[i]` is found and no earlier candidate is. */
  predicate FirstFoundAt(candidates: seq<Option<seq<Element>>>, i: int) {
    0 <= i < |candidates| && candidates[i].Some? && forall j :: 0 <= j < i ==> candidates[j].None?
  }

  /** The first container found, in preference order (scraper.py:59-67). */
  function FirstFound(candidates: seq<Option<seq<Element>>>): (r: Option<seq<Element>>)
    ensures r.Some? ==> exists i :: FirstFoundAt(candidates, i) && candidates[i] == r
    ensures r.None? ==> forall i :: 0 <= i < |candidates| ==> candidates[i].None?
    decreases |candidates|
  {
    if |candidates| == 0 then None
    else if candidates[0].Some? then
      assert FirstFoundAt(candidates, 0);
      candidates[0]
    else
      var r := FirstFound(candidates[1..]);
      assert r.Some? ==> exists i :: FirstFoundAt(candidates, i) && candidates[i] == r by {
        if r.Some? {
          var i :| FirstFoundAt(candidates[1..], i) && candidates[1..][i] == r;
          assert FirstFoundAt(candidates, i + 1);
        }
      }
      r
  }

  /** The container, falling back to `<body>` (scraper.py:59-73). */
  function SelectContainer(page: Page): Option<seq<Element>> {
    match FirstFound(page.containers)
    case Some(c) => Some(c)
    case None => page.body
  }

  /** The result of `scrape_with_beautifulsoup`, as a specification of the method below. */
  function PrimaryResult(page: Page): Option<Extracted> {
    var title := TrimPunct(page.h1.GetOr("No Title Found"));
    match SelectContainer(page)
    case None => None
    case Some(elems) =>
      var w := Walk(elems);
      if Strip(w.content) == "" then None
      else Some(Extracted(title, w.content, w.mainImage, w.description))
  }

  /** `scrape_with_beautifulsoup`: the document-order loop over the container's elements. */
  method ScrapeWithBeautifulSoup(page: Page) returns (r: Option<Extracted>)
    ensures r == PrimaryResult(page)
  {
    var title := TrimPunct(page.h1.GetOr("No Title Found"));
    var container := SelectContainer(page);
    if container.None? {
      return None;
    }
    var elems := container.value;
    var content := "";
    var description := "";
    var seen: set<string> := {};
    var mainImage: Option<string> := None;
    var i := 0;
    while i < |elems|
      invariant 0 <= i <= |elems|
      invariant WalkState(content, description, seen, mainImage) == Walk(elems[..i])
    {
      var e := elems[i];
      assert elems[..i + 1][..i] == elems[..i];
      match e {
        case P(text) =>
          if text != "" && |text| >= 20 {
            if description == "" {
              description := Description(text);
            }
            content := content + Block("p", text);
          }
        case H(l, text) =>
          if text != "" {
            content := content + Block(HeadingName(l), text);
          }
        case Img(a) =>
          var src := ImageSource(a);
          if Acceptable(src) && src !in seen {
            content := content + ImageBlock(src);
            seen := seen + {src};
            if mainImage.None? {
              mainImage := Some(src);
            }
          }
        case Figure(o) =>
          if o.Some? {
            var src := ImageSource(o.value);
            if Acceptable(src) && src !in seen {
              content := content + ImageBlock(src);
              seen := seen + {src};
              if mainImage.None? {
                mainImage := Some(src);
              }
            }
          }
      }
      i := i + 1;
    }
    assert elems[..|elems|] == elems;
    if Strip(content) == "" {
      return None;
    }
    return Some(Extracted(title, content, mainImage, description));
  }

  /** The primary result, when there is one, is the walk over the chosen container. */
  lemma PrimaryResultSpec(page: Page)
    ensures PrimaryResult(page).None? <==>
      (SelectContainer(page).None? ||
       forall i :: 0 <= i < |SelectContainer(page).value| ==>
         !KeptText(SelectContainer(page).value[i]) && !AcceptedImage(SelectContainer(page).value[i]))
    ensures PrimaryResult(page).Some? ==> Strip(PrimaryResult(page).value.contentHtml) != ""
    ensures PrimaryResult(page).Some? ==>
      PrimaryResult(page).value.imageUrl == FirstAccepted(SelectContainer(page).value) &&
      PrimaryResult(page).value.shortDescription == FirstDescription(SelectContainer(page).value) &&
      PrimaryResult(page).value.title == TrimPunct(page.h1.GetOr("No Title Found"))
  {
    if SelectContainer(page).Some? {
      var elems := SelectContainer(page).value;
      MainImageIsFirstAccepted(elems);
      DescriptionIsFirst(elems);
      ContentEmptyIff(elems);
      var c := Walk(elems).content;
      StripEmptyIff(c);
      if c != "" {
        assert !IsSpace(c[0]);
      }
    }
  }

  // ---------------------------------------------------------------- the fallback

  /** `clean_trafilatura_html` (scraper.py:191-211). */
  function CleanTrafilaturaHtml(h: string): (r: string)
    ensures NoSpaceAtEnds(r)
  {
    if h == "" then "" else Strip(Sub(EmptyPara(false), TrafilaturaTagPasses(h)))
  }

  /** Lines 197-205: the structure tags removed, then the headings renamed. */
  function TrafilaturaTagPasses(h: string): string {
    CollapseHeadings(Sub(StructTag("body"), Sub(StructTag("head"), Sub(StructTag("html"), h))))
  }

  /** Text without tags is only stripped by the cleaner. */
  lemma CleanTrafilaturaTagFree(h: string)
    requires forall i :: 0 <= i < |h| ==> h[i] != '<'
    ensures CleanTrafilaturaHtml(h) == Strip(h)
  {
    NoLtSubIdentity(StructTag("html"), h);
    NoLtSubIdentity(StructTag("head"), h);
    NoLtSubIdentity(StructTag("body"), h);
    CollapseHeadingsNoLt(h);
    NoLtSubIdentity(EmptyPara(false), h);
  }

  /** Lines 197-199, in order. */
  const PageStructurePatterns: seq<Pattern> := [StructTag("html"), StructTag("head"), StructTag("body")]

  /**
   * `clean_trafilatura_html` on well-formed text, tag by tag: the `html`,
   * `head` and `body` tags go, `h1`/`h2` become `h3` and `h5`/`h6` become
   * `h4` with their attributes kept, and everything else is kept in order;
   * then empty paragraphs go and the ends are stripped.
   */
  lemma TrafilaturaByTags(ps: seq<Piece>)
    requires AllWellFormed(ps)
    ensures CleanTrafilaturaHtml(Render(ps)) ==
      Strip(Sub(EmptyPara(false), Render(Retitle(Kept(ps, PageStructurePatterns)))))
  {
    var p1, p2, p3 := StructTag("html"), StructTag("head"), StructTag("body");
    KeptNothing(ps);
    TwoPasses(ps, [], p1, p2);
    RemovalPass(p3, ps, [p1, p2]);
    assert [] + [p1, p2] == [p1, p2] && [p1, p2] + [p3] == PageStructurePatterns;
    var k1 := Kept(ps, PageStructurePatterns);
    KeptWellFormed(ps, PageStructurePatterns);
    CollapseHeadingsByTags(k1);
    if Render(ps) == "" {
      EmptyTextCleaned();
    }
  }

  lemma EmptyTextCleaned()
    ensures Strip(Sub(EmptyPara(false), TrafilaturaTagPasses(""))) == ""
  {
  }

  /** After lines 202-205 no tag is an `h1`, `h2`, `h5` or `h6` tag. */
  lemma TrafilaturaHeadingsRenamed(ps: seq<Piece>)
    requires AllWellFormed(ps)
    ensures forall p :: p in Retitle(Kept(ps, PageStructurePatterns)) && p.Elem? ==> !LowHeading(p.body)
  {
    var k1 := Kept(ps, PageStructurePatterns);
    KeptWellFormed(ps, PageStructurePatterns);
    CollapseHeadingsSettles(k1);
    forall p | p in Retitle(k1) && p.Elem? ensures !LowHeading(p.body) {
      var k :| 0 <= k < |Retitle(k1)| && Retitle(k1)[k] == p;
    }
  }

  /**
   * Line 208: an empty paragraph after text without tags makes no difference
   * to the cleaned result, as if it were not there.
   */
  lemma TrafilaturaDropsEmptyParagraph(pre: string, w: string, post: string)
    requires LtFree(pre) && AllSpace(w)
    ensures CleanTrafilaturaHtml(pre + ("<p>" + (w + ("</p>" + post)))) == CleanTrafilaturaHtml(pre + post)
  {
    assert LtFree(w);
    var x := TrafilaturaTagPasses(post);
    TagPassesKeepParagraph(pre, w, post);
    TagPassesKeepPrefix(pre, post);
    EmptyParaDropped(false, pre, w, x);
    SubNoLtPrefix(EmptyPara(false), pre, x);
    if pre + post == "" {
      assert pre == "" && post == "";
      EmptyTextCleaned();
    }
  }

  /** Lines 197-205 copy a paragraph and the text without tags before it. */
  lemma TagPassesKeepParagraph(pre: string, x: string, post: string)
    requires LtFree(pre) && LtFree(x)
    ensures TrafilaturaTagPasses(pre + ("<p>" + (x + ("</p>" + post)))) ==
      pre + ("<p>" + (x + ("</p>" + TrafilaturaTagPasses(post))))
  {
    var p1, p2, p3 := StructTag("html"), StructTag("head"), StructTag("body");
    var x1 := Sub(p1, post);
    var x2 := Sub(p2, x1);
    StructKeepsParagraphs("html");
    StructKeepsParagraphs("head");
    StructKeepsParagraphs("body");
    ParagraphThroughLocal(p1, pre, x, post);
    ParagraphThroughLocal(p2, pre, x, x1);
    ParagraphThroughLocal(p3, pre, x, x2);
    CollapseHeadingsKeepsParagraph(pre, x, Sub(p3, x2));
  }

  /** Lines 197-205 copy text without tags at the front. */
  lemma TagPassesKeepPrefix(pre: string, post: string)
    requires LtFree(pre)
    ensures TrafilaturaTagPasses(pre + post) == pre + TrafilaturaTagPasses(post)
  {
    var p1, p2, p3 := StructTag("html"), StructTag("head"), StructTag("body");
    var x1 := Sub(p1, post);
    var x2 := Sub(p2, x1);
    SubNoLtPrefix(p1, pre, post);
    SubNoLtPrefix(p2, pre, x1);
    SubNoLtPrefix(p3, pre, x2);
    CollapseHeadingsKeepsPrefix(pre, Sub(p3, x2));
  }

  /** A paragraph long enough to describe the article (scraper.py:217). */
  predicate Long(p: string) {
    |Strip(p)| > 50
  }

  /** The index of the first paragraph at or after `k` whose stripped length exceeds 50. */
  function FirstLongIndex(ps: seq<string>, k: nat): (r: Option<nat>)
    ensures r.Some? ==> k <= r.value < |ps| && Long(ps[r.value])
    ensures r.Some? ==> forall j :: k <= j < r.value ==> !Long(ps[j])
    ensures r.None? ==> forall j :: k <= j < |ps| ==> !Long(ps[j])
    decreases |ps| - k
  {
    if k >= |ps| then None else if Long(ps[k]) then Some(k) else FirstLongIndex(ps, k + 1)
  }

  /**
   * The description made from a paragraph (scraper.py:218-220). The cut is
   * made on the stripped text, but the ellipsis is decided on the raw text.
   */
  function ParagraphDescription(p: string): string {
    var t := Strip(p);
    TrimPunct(if |t| > 300 then t[..300] else t) + (if |p| > 300 then "..." else "")
  }

  /** `extract_short_description_from_html` */
  function ExtractShortDescription(h: string): string {
    var ps := FindAll(ParaText, h);
    match FirstLongIndex(ps, 0)
    case None => ""
    case Some(k) => ParagraphDescription(ps[k])
  }

  /** `extract_main_image_from_html`: only the first `<img src="...">` is considered. */
  function ExtractMainImage(h: string): Option<string> {
    match Search(ImgSrc, h)
    case None => None
    case Some(u) => if Denied(u, FallbackDenylist) then None else Some(u)
  }

  /** `scrape_with_trafilatura`, given what the extraction library returned. */
  function FallbackResult(x: Extraction): Option<Extracted> {
    if x.content.None? || x.content.value == "" then None
    else
      var title := TrimPunct(if x.metaTitle.Some? && x.metaTitle.value != "" then Strip(x.metaTitle.value) else "No Title Found");
      var cleaned := CleanTrafilaturaHtml(x.content.value);
      Some(Extracted(title, cleaned, ExtractMainImage(cleaned), ExtractShortDescription(cleaned)))
  }

  /** `scrape_article_content`: a fetch failure, then the primary extractor, then the fallback. */
  function ScrapeArticleContent(fetched: Option<string>, parse: string -> Page, extract: string -> Extraction): Option<Scraped> {
    match fetched
    case None => None
    case Some(raw) =>
      match PrimaryResult(parse(raw))
      case Some(a) => Some(Scraped(a, raw))
      case None =>
        match FallbackResult(extract(raw))
        case Some(a) => Some(Scraped(a, raw))
        case None => None
  }

  /** The fallback's description is at most 303 characters long. */
  lemma {:induction false} ShortDescriptionBound(h: string)
    ensures |ExtractShortDescription(h)| <= 303
  {
    var ps := FindAll(ParaText, h);
    match FirstLongIndex(ps, 0)
    case None =>
    case Some(k) =>
      var t := Strip(ps[k]);
      assert |TrimPunct(if |t| > 300 then t[..300] else t)| <= 300;
  }

  /** Without a paragraph longer than 50 stripped characters there is no description. */
  lemma ShortDescriptionNeedsLongParagraph(h: string)
    requires forall k :: 0 <= k < |FindAll(ParaText, h)| ==> !Long(FindAll(ParaText, h)[k])
    ensures ExtractShortDescription(h) == ""
  {
  }

  /** As written, a paragraph padded with whitespace past 300 characters gets `...` although nothing was cut. */
  lemma EllipsisWithoutCut(p: string)
    requires 50 < |Strip(p)| <= 300 < |p|
    ensures ParagraphDescription(p) == TrimPunct(Strip(p)) + "..."
  {
  }

  /** The fallback's image is the first `<img src>` of the cleaned HTML, and only if it is not denylisted. */
  lemma MainImageSpec(h: string)
    ensures ExtractMainImage(h).Some? ==>
      (Search(ImgSrc, h) == ExtractMainImage(h) &&
       !Denied(ExtractMainImage(h).value, FallbackDenylist) && |ExtractMainImage(h).value| > 0)
    ensures Search(ImgSrc, h).Some? && Denied(Search(ImgSrc, h).value, FallbackDenylist) ==> ExtractMainImage(h).None?
  {
    ImgSrcIsQuoteFree(h);
  }

  /**
   * A denylisted first image hides every later one: whatever follows
   * `<img src="u"` for a denylisted `u`, the fallback reports no image.
   */
  lemma FirstImageDecides(u: string, rest: string)
    requires |u| > 0 && forall i :: 0 <= i < |u| ==> u[i] != '"'
    requires Denied(u, FallbackDenylist)
    ensures ExtractMainImage("<img src=\"" + u + "\"" + rest) == None
  {
    SearchImgSrcAtStart(u, rest);
  }

  /**
   * As written, the fallback can succeed with empty content: the emptiness
   * test comes before the cleaning, which may strip everything away.
   */
  lemma FallbackContentMayBeEmpty(title: Option<string>, ws: string)
    requires |ws| > 0 && forall i :: 0 <= i < |ws| ==> IsSpace(ws[i])
    ensures FallbackResult(Extraction(title, Some(ws))).Some?
    ensures FallbackResult(Extraction(title, Some(ws))).value.contentHtml == ""
  {
    CleanTrafilaturaTagFree(ws);
    StripEmptyIff(ws);
  }

  /**
   * The extractor tries the primary first and keeps its result; the fallback
   * runs only when the primary finds nothing. Empty content can only come
   * from the fallback, and nothing comes back without a fetched page.
   */
  lemma ScrapeOrder(fetched: Option<string>, parse: string -> Page, extract: string -> Extraction)
    ensures ScrapeArticleContent(fetched, parse, extract).Some? ==>
      fetched.Some? && ScrapeArticleContent(fetched, parse, extract).value.rawHtml == fetched.value
    ensures fetched.Some? && PrimaryResult(parse(fetched.value)).Some? ==>
      ScrapeArticleContent(fetched, parse, extract) == Some(Scraped(PrimaryResult(parse(fetched.value)).value, fetched.value))
    ensures fetched.Some? && PrimaryResult(parse(fetched.value)).None? ==>
      ScrapeArticleContent(fetched, parse, extract).None? == FallbackResult(extract(fetched.value)).None?
    ensures (ScrapeArticleContent(fetched, parse, extract).Some? &&
             Strip(ScrapeArticleContent(fetched, parse, extract).value.article.contentHtml) == "") ==>
      PrimaryResult(parse(fetched.value)).None?
  {
    if fetched.Some? {
      PrimaryResultSpec(parse(fetched.value));
    }
  }
}
