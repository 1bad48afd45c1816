/**
 * `clean_html_for_telegraph` (telegraph_client.py): the chain of regular
 * expression rewrites that turns article HTML into the tag subset the
 * Telegraph page service accepts. Page creation itself is a call to the
 * service and is an input of the job model.
 */
module TelegraphClient {
  import opened Wrappers
  import opened Text
  import opened Patterns
  import opened Markup

  /** Tags removed with their attributes while their content is kept. */
  const UnsupportedTags: seq<string> :=
    ["div", "span", "section", "article", "header", "footer", "nav", "aside", "main", "figure", "figcaption"]

  /** Lines 15-18: document-structure tags, opening or closing, any case. */
  function RemoveStructure(h: string): string {
    Sub(StructTag("doctype"), Sub(StructTag("body"), Sub(StructTag("head"), Sub(StructTag("html"), h))))
  }

  /** Lines 29-32: the loop over `unsupported_tags`, opening tag first, then closing tag. */
  function RemoveWrappers(h: string, tags: seq<string>): string
    decreases |tags|
  {
    if |tags| == 0 then h
    else RemoveWrappers(Sub(WrapperClose(tags[0]), Sub(WrapperOpen(tags[0]), h)), tags[1..])
  }

  /** Lines 35-42: attributes dropped, `<img>` reduced to its `src`, empty paragraphs removed. */
  function SimplifyTags(h: string): string {
    Sub(NbspPara, Sub(EmptyPara(true), Sub(ImgTag, Sub(AttrTag, h))))
  }

  /** Lines 43-44: whitespace runs become one space, then blank lines are merged. */
  function NormalizeSpace(h: string): string {
    Sub(BlankLines, Sub(SpaceRun, h))
  }

  /** `clean_html_for_telegraph(html_content)` */
  function CleanHtmlForTelegraph(h: string): string {
    Strip(NormalizeSpace(SimplifyTags(TelegraphTagPasses(h))))
  }

  /** Lines 15-32: structure tags removed, headings renamed, wrappers removed. */
  function TelegraphTagPasses(h: string): string {
    RemoveWrappers(CollapseHeadings(RemoveStructure(h)), UnsupportedTags)
  }

  /** Every whitespace character is a plain space, and no two whitespace characters are adjacent. */
  predicate SingleSpaced(r: string) {
    forall i :: 0 <= i < |r| && IsSpace(r[i]) ==> r[i] == ' ' && (i + 1 == |r| || !IsSpace(r[i + 1]))
  }

  /** `re.sub(r'\s+', ' ', s)` leaves single plain spaces, and keeps a non-space first character. */
  lemma {:induction false} SpaceRunCollapses(s: string)
    ensures SingleSpaced(Sub(SpaceRun, s))
    ensures |s| > 0 && !IsSpace(s[0]) ==> |Sub(SpaceRun, s)| > 0 && Sub(SpaceRun, s)[0] == s[0]
    decreases |s|
  {
    if |s| > 0 {
      var r := Sub(SpaceRun, s);
      if IsSpace(s[0]) {
        var e := SpaceRunEnd(s, 0);
        SpaceRunCollapses(s[e..]);
        var rest := Sub(SpaceRun, s[e..]);
        assert r == " " + rest;
        assert e < |s| ==> !IsSpace(s[e..][0]);
      } else {
        SpaceRunCollapses(s[1..]);
      }
    }
  }

  lemma NoNewlineNoBlankLines(s: string)
    requires forall i :: 0 <= i < |s| ==> s[i] != '\n'
    ensures NoMatch(BlankLines, s)
  {
    forall i | 0 <= i < |s| ensures MatchAt(BlankLines, s[i..]).None? {
      assert s[i..][0] == s[i];
    }
  }

  /** Without newlines, `re.sub(r'\n\s*\n', '\n', s)` has nothing to do. */
  lemma BlankLinesNoop(s: string)
    requires forall i :: 0 <= i < |s| ==> s[i] != '\n'
    ensures Sub(BlankLines, s) == s
  {
    NoNewlineNoBlankLines(s);
    SubWithoutMatch(BlankLines, s);
  }

  /** Line 44 never changes anything: line 43 has already turned every newline into a space. */
  lemma BlankLinePassIsNoop(h: string)
    ensures NormalizeSpace(h) == Sub(SpaceRun, h)
  {
    SpaceRunCollapses(h);
    BlankLinesNoop(Sub(SpaceRun, h));
  }

  /** The last two steps, whatever they are given, leave text of this shape. */
  lemma {:induction false} NormalizedShape(x: string)
    ensures var r := Strip(NormalizeSpace(x));
      NoSpaceAtEnds(r) && SingleSpaced(r) && forall i :: 0 <= i < |r| ==> r[i] != '\n'
  {
    BlankLinePassIsNoop(x);
    SpaceRunCollapses(x);
    var n := Sub(SpaceRun, x);
    var a := StripInfix(n);
    var r := Strip(n);
    forall i | 0 <= i < |r| && IsSpace(r[i])
      ensures r[i] == ' ' && (i + 1 == |r| || !IsSpace(r[i + 1]))
    {
      assert r[i] == n[a + i];
      assert i + 1 < |r| ==> r[i + 1] == n[a + i + 1];
    }
  }

  /**
   * The cleaned HTML has no whitespace at either end, no newline, and no two
   * whitespace characters in a row; every whitespace character is a space.
   */
  lemma TelegraphOutputShape(h: string)
    ensures var r := CleanHtmlForTelegraph(h);
      NoSpaceAtEnds(r) && SingleSpaced(r) && forall i :: 0 <= i < |r| ==> r[i] != '\n'
  {
    NormalizedShape(SimplifyTags(RemoveWrappers(CollapseHeadings(RemoveStructure(h)), UnsupportedTags)));
  }

  /** A lower-case tag name without angle brackets or slashes. */
  predicate PlainName(n: string) {
    |n| > 0 && forall i :: 0 <= i < |n| ==> n[i] != '<' && n[i] != '>' && n[i] != '/' && LowerChar(n[i]) == n[i]
  }

  /**
   * One scan does not catch a tag that its own removal brings together:
   * `<<html>html>` leaves `<html>`, which the same pattern matches.
   */
  lemma StructureRemovalIsOnePass(n: string)
    requires PlainName(n)
    ensures Sub(StructTag(n), "<" + (Tag(n) + (n + ">"))) == "<" + (n + ">")
    ensures MatchAt(StructTag(n), Tag(n)).Some?
  {
    RemovalJoinsTag(n);
    TagMatches(n, "");
    assert Tag(n) + "" == Tag(n);
  }

  /** The scan steps over the outer `<`, removes the inner tag, then finds nothing in the rest. */
  lemma RemovalJoinsTag(n: string)
    requires PlainName(n)
    ensures Sub(StructTag(n), "<" + (Tag(n) + (n + ">"))) == "<" + (n + ">")
  {
    StepOverOuterBracket(n, Tag(n) + (n + ">"));
    RemoveInnerTag(n, n + ">");
    NoLtNoStructTag(n, n + ">");
  }

  lemma StepOverOuterBracket(n: string, t: string)
    requires PlainName(n) && |t| > 0 && t[0] == '<'
    ensures Sub(StructTag(n), "<" + t) == "<" + Sub(StructTag(n), t)
  {
    OuterBracketNoMatch(n, t);
    SubCopies(StructTag(n), '<', t);
  }

  lemma RemoveInnerTag(n: string, rest: string)
    requires PlainName(n)
    ensures Sub(StructTag(n), Tag(n) + rest) == Sub(StructTag(n), rest)
  {
    TagMatches(n, rest);
    SubReplaces(StructTag(n), Tag(n), rest, Match(|n| + 2, "", ""));
  }

  lemma OuterBracketNoMatch(n: string, t: string)
    requires PlainName(n) && |t| > 0 && t[0] == '<'
    ensures MatchAt(StructTag(n), ['<'] + t).None?
  {
    var s := ['<'] + t;
    assert s[1] == '<';
    assert LowerChar(s[1..][0]) != n[0];
  }

  /** `<NAME>` */
  function Tag(n: string): (r: string)
    ensures |r| == |n| + 2 && r[0] == '<' && r[|n| + 1] == '>' && r[1..|n| + 1] == n
  {
    "<" + n + ">"
  }

  lemma TagMatches(n: string, rest: string)
    requires PlainName(n)
    ensures MatchAt(StructTag(n), Tag(n) + rest) == Some(Match(|n| + 2, "", ""))
  {
    var t := Tag(n) + rest;
    assert t[1] == n[0] && t[1] != '/';
    assert StartsWithNoCase(t[1..], n) by {
      forall i | 0 <= i < |n| ensures LowerChar(t[1..][i]) == n[i] {
        assert t[1 + i] == Tag(n)[1..|n| + 1][i];
      }
    }
    assert t[|n| + 1] == '>';
    assert FirstFrom(t, 1 + |n|, '>') == Some(|n| + 1);
  }

  lemma NoLtNoStructTagMatch(n: string, s: string)
    requires forall i :: 0 <= i < |s| ==> s[i] != '<'
    ensures NoMatch(StructTag(n), s)
  {
    forall i | 0 <= i < |s| ensures MatchAt(StructTag(n), s[i..]).None? {
      assert s[i..][0] == s[i];
    }
  }

  lemma NoLtNoStructTag(n: string, s: string)
    requires forall i :: 0 <= i < |s| ==> s[i] != '<'
    ensures Sub(StructTag(n), s) == s
  {
    NoLtNoStructTagMatch(n, s);
    SubWithoutMatch(StructTag(n), s);
  }

  // ------------------------------------------------------- tag by tag
  //
  // Over text given as pieces (`Markup.Piece`: runs of text without `<`,
  // and tags without `<` or `>` inside), each pass of the cleaner is stated
  // as what it does to every tag.

  /**
   * Lines 15-32 on well-formed text: the structure tags go, the low headings
   * are renamed, the listed wrappers go, and everything else is kept in order.
   */
  lemma TagPassesByPieces(ps: seq<Piece>)
    requires AllWellFormed(ps)
    ensures TelegraphTagPasses(Render(ps)) ==
      Render(Kept(Retitle(Kept(ps, DocumentPatterns)), WrapperPatterns(UnsupportedTags)))
  {
    var k1 := Kept(ps, DocumentPatterns);
    StructureTagsRemoved(ps);
    KeptWellFormed(ps, DocumentPatterns);
    CollapseHeadingsByTags(k1);
    RetitleWellFormed(k1);
    WrappersRemoved(Retitle(k1));
  }

  /** After lines 15-32 no tag left is an `h1`, `h2`, `h5` or `h6` tag, or one of the listed wrappers. */
  lemma TagPassesLeaveSupportedTags(ps: seq<Piece>)
    requires AllWellFormed(ps)
    ensures forall p :: p in Kept(Retitle(Kept(ps, DocumentPatterns)), WrapperPatterns(UnsupportedTags)) && p.Elem? ==>
      !LowHeading(p.body) && !Removed(WrapperPatterns(UnsupportedTags), p.body)
  {
    var k1 := Kept(ps, DocumentPatterns);
    var r := Retitle(k1);
    KeptWellFormed(ps, DocumentPatterns);
    CollapseHeadingsSettles(k1);
    KeptFrom(r, WrapperPatterns(UnsupportedTags));
    forall p | p in r && p.Elem? ensures !LowHeading(p.body) {
      var k :| 0 <= k < |r| && r[k] == p;
    }
  }

  /** Lines 15-18, in order. */
  const DocumentPatterns: seq<Pattern> :=
    [StructTag("html"), StructTag("head"), StructTag("body"), StructTag("doctype")]

  /** Lines 15-18 remove exactly the tags their patterns name, and keep every other piece. */
  lemma StructureTagsRemoved(ps: seq<Piece>)
    requires AllWellFormed(ps)
    ensures RemoveStructure(Render(ps)) == Render(Kept(ps, DocumentPatterns))
  {
    FourPasses(ps, StructTag("html"), StructTag("head"), StructTag("body"), StructTag("doctype"));
  }

  lemma FourPasses(ps: seq<Piece>, p1: Pattern, p2: Pattern, p3: Pattern, p4: Pattern)
    requires AllWellFormed(ps)
    requires RemovesOnly(p1) && Local(p1) && RemovesOnly(p2) && Local(p2)
    requires RemovesOnly(p3) && Local(p3) && RemovesOnly(p4) && Local(p4)
    ensures Sub(p4, Sub(p3, Sub(p2, Sub(p1, Render(ps))))) == Render(Kept(ps, [p1, p2, p3, p4]))
  {
    KeptNothing(ps);
    TwoPasses(ps, [], p1, p2);
    TwoPasses(ps, [p1, p2], p3, p4);
    assert [] + [p1, p2] == [p1, p2] && [p1, p2] + [p3, p4] == [p1, p2, p3, p4];
  }

  /** The tags lines 15-18 remove: `<NAME...>` or `</NAME...>`, any case, for the four names. */
  lemma DocumentTagRemovedIff(b: string)
    ensures Removed(DocumentPatterns, b) <==>
      IsStructBody("html", b) || IsStructBody("head", b) || IsStructBody("body", b) || IsStructBody("doctype", b)
  {
    if IsStructBody("html", b) {
      assert TagRule(DocumentPatterns[0], b).None?;
    } else if IsStructBody("head", b) {
      assert TagRule(DocumentPatterns[1], b).None?;
    } else if IsStructBody("body", b) {
      assert TagRule(DocumentPatterns[2], b).None?;
    } else if IsStructBody("doctype", b) {
      assert TagRule(DocumentPatterns[3], b).None?;
    }
  }

  /** A second run of lines 15-18 over their own output changes nothing. */
  lemma StructureRemovalSettles(ps: seq<Piece>)
    requires AllWellFormed(ps)
    ensures RemoveStructure(RemoveStructure(Render(ps))) == RemoveStructure(Render(ps))
  {
    StructureTagsRemoved(ps);
    KeptWellFormed(ps, DocumentPatterns);
    StructureTagsRemoved(Kept(ps, DocumentPatterns));
    KeptTwice(ps, DocumentPatterns);
  }

  /** The patterns of lines 29-32 for `tags`, in the order the loop applies them. */
  function WrapperPatterns(tags: seq<string>): (r: seq<Pattern>)
    ensures |r| == 2 * |tags|
    decreases |tags|
  {
    if |tags| == 0 then [] else [WrapperOpen(tags[0]), WrapperClose(tags[0])] + WrapperPatterns(tags[1..])
  }

  /** Each listed tag contributes its opening pattern, then its closing one. */
  lemma {:induction false} WrapperPatternsAt(tags: seq<string>, i: nat)
    requires i < |tags|
    ensures WrapperPatterns(tags)[2 * i] == WrapperOpen(tags[i])
    ensures WrapperPatterns(tags)[2 * i + 1] == WrapperClose(tags[i])
    decreases |tags|
  {
    if i > 0 {
      WrapperPatternsAt(tags[1..], i - 1);
    }
  }

  lemma {:induction false} WrapperPasses(ps: seq<Piece>, pats: seq<Pattern>, tags: seq<string>)
    requires AllWellFormed(ps) && forall i :: 0 <= i < |tags| ==> NoGt(tags[i])
    ensures RemoveWrappers(Render(Kept(ps, pats)), tags) == Render(Kept(ps, pats + WrapperPatterns(tags)))
    decreases |tags|
  {
    if |tags| == 0 {
      assert pats + [] == pats;
    } else {
      var next := pats + [WrapperOpen(tags[0]), WrapperClose(tags[0])];
      TwoPasses(ps, pats, WrapperOpen(tags[0]), WrapperClose(tags[0]));
      WrapperPasses(ps, next, tags[1..]);
      WrapperPatternsCons(pats, tags);
    }
  }

  lemma WrapperPatternsCons(pats: seq<Pattern>, tags: seq<string>)
    requires |tags| > 0
    ensures pats + [WrapperOpen(tags[0]), WrapperClose(tags[0])] + WrapperPatterns(tags[1..]) == pats + WrapperPatterns(tags)
  {
  }

  lemma UnsupportedTagsPlain()
    ensures forall i :: 0 <= i < |UnsupportedTags| ==> PlainName(UnsupportedTags[i]) && |UnsupportedTags[i]| >= 2
  {
  }

  /** Lines 29-32 remove exactly the opening and closing tags of the listed elements, keeping what lies between. */
  lemma WrappersRemoved(ps: seq<Piece>)
    requires AllWellFormed(ps)
    ensures RemoveWrappers(Render(ps), UnsupportedTags) == Render(Kept(ps, WrapperPatterns(UnsupportedTags)))
  {
    UnsupportedTagsPlain();
    assert forall j :: 0 <= j < |UnsupportedTags| ==> NoGt(UnsupportedTags[j]);
    WrappersRemovedFor(ps, UnsupportedTags);
  }

  lemma WrappersRemovedFor(ps: seq<Piece>, tags: seq<string>)
    requires AllWellFormed(ps) && forall i :: 0 <= i < |tags| ==> NoGt(tags[i])
    ensures RemoveWrappers(Render(ps), tags) == Render(Kept(ps, WrapperPatterns(tags)))
  {
    KeptNothing(ps);
    WrapperPasses(ps, [], tags);
    assert [] + WrapperPatterns(tags) == WrapperPatterns(tags);
  }

  /** The tags lines 29-32 remove: `<TAG...>` or exactly `</TAG>`, any case, for a listed tag. */
  lemma WrapperTagRemovedIff(b: string, tags: seq<string>)
    ensures Removed(WrapperPatterns(tags), b) <==>
      exists i :: 0 <= i < |tags| && (StartsWithNoCase(b, tags[i]) || IsCloseOf(tags[i], b))
  {
    if Removed(WrapperPatterns(tags), b) {
      var k := RemovedBy(WrapperPatterns(tags), b);
      RemovedWrapperIsListed(b, tags, k);
    }
    if exists i :: 0 <= i < |tags| && (StartsWithNoCase(b, tags[i]) || IsCloseOf(tags[i], b)) {
      var i :| 0 <= i < |tags| && (StartsWithNoCase(b, tags[i]) || IsCloseOf(tags[i], b));
      ListedWrapperIsRemoved(b, tags, i);
    }
  }

  lemma RemovedWrapperIsListed(b: string, tags: seq<string>, k: nat)
    requires k < |WrapperPatterns(tags)| && TagRule(WrapperPatterns(tags)[k], b).None?
    ensures exists i :: 0 <= i < |tags| && (StartsWithNoCase(b, tags[i]) || IsCloseOf(tags[i], b))
  {
    var i := WrapperPatternOf(tags, k);
    if WrapperPatterns(tags)[k] == WrapperOpen(tags[i]) {
      assert StartsWithNoCase(b, tags[i]);
    } else {
      assert IsCloseOf(tags[i], b);
    }
  }

  /** The listed tag whose opening or closing pattern stands at `k`. */
  lemma {:induction false} WrapperPatternOf(tags: seq<string>, k: nat) returns (i: nat)
    requires k < |WrapperPatterns(tags)|
    ensures i < |tags|
    ensures WrapperPatterns(tags)[k] == WrapperOpen(tags[i]) || WrapperPatterns(tags)[k] == WrapperClose(tags[i])
    decreases |tags|
  {
    if k < 2 {
      i := 0;
    } else {
      var j := WrapperPatternOf(tags[1..], k - 2);
      i := j + 1;
    }
  }

  lemma ListedWrapperIsRemoved(b: string, tags: seq<string>, i: nat)
    requires i < |tags| && (StartsWithNoCase(b, tags[i]) || IsCloseOf(tags[i], b))
    ensures Removed(WrapperPatterns(tags), b)
  {
    var pats := WrapperPatterns(tags);
    WrapperPatternsAt(tags, i);
    if StartsWithNoCase(b, tags[i]) {
      assert TagRule(pats[2 * i], b).None?;
    } else {
      assert TagRule(pats[2 * i + 1], b).None?;
    }
  }

  /** A listed element without nested tags is unwrapped to its text: `<div class="x">text</div>` becomes `text`. */
  lemma WrapperUnwrapped(i: nat, a: string, x: string)
    requires i < |UnsupportedTags| && TagBody(a) && LtFree(x)
    ensures RemoveWrappers(TagText(UnsupportedTags[i] + a) + x + TagText("/" + UnsupportedTags[i]), UnsupportedTags) == x
  {
    UnsupportedTagsPlain();
    ElementUnwrapped(UnsupportedTags, i, a, x);
  }

  lemma ElementUnwrapped(tags: seq<string>, i: nat, a: string, x: string)
    requires forall j :: 0 <= j < |tags| ==> PlainName(tags[j])
    requires i < |tags| && TagBody(a) && LtFree(x)
    ensures RemoveWrappers(TagText(tags[i] + a) + x + TagText("/" + tags[i]), tags) == x
  {
    var t := tags[i];
    var open, close := t + a, "/" + t;
    var ps := [Elem(open), Chars(x), Elem(close)];
    assert Lowered(t) && NoGt(t);
    assert TagBody(open) && TagBody(close);
    assert forall j :: 0 <= j < |tags| ==> NoGt(tags[j]);
    UnwrapPieces(open, x, close);
    WrappersRemovedFor(ps, tags);
    StartsWithLowered(open, t);
    StartsWithLowered(close[1..], t);
    ListedWrapperIsRemoved(open, tags, i);
    ListedWrapperIsRemoved(close, tags, i);
    KeptUnwrapped(open, x, close, WrapperPatterns(tags));
  }

  lemma UnwrapPieces(open: string, x: string, close: string)
    requires TagBody(open) && TagBody(close) && LtFree(x)
    ensures AllWellFormed([Elem(open), Chars(x), Elem(close)])
    ensures Render([Elem(open), Chars(x), Elem(close)]) == TagText(open) + x + TagText(close)
  {
    var ps := [Elem(open), Chars(x), Elem(close)];
    forall k | 0 <= k < |ps| ensures WellFormed(ps[k]) { }
    var r1, r2 := [Chars(x), Elem(close)], [Elem(close)];
    assert ps[1..] == r1 && r1[1..] == r2 && r2[1..] == [];
    assert Render(r2) == TagText(close) + "";
    Assoc(TagText(open), x, TagText(close));
  }

  lemma KeptUnwrapped(open: string, x: string, close: string, pats: seq<Pattern>)
    requires Removed(pats, open) && Removed(pats, close)
    ensures Render(Kept([Elem(open), Chars(x), Elem(close)], pats)) == x
  {
    KeptCons(Elem(close), [], pats);
    KeptCons(Chars(x), [Elem(close)], pats);
    KeptCons(Elem(open), [Chars(x), Elem(close)], pats);
    RenderCons(Chars(x), []);
  }

  /** A string that begins with a lower-case literal begins with it ignoring case. */
  lemma StartsWithLowered(s: string, t: string)
    requires Lowered(t) && |t| <= |s| && s[..|t|] == t
    ensures StartsWithNoCase(s, t)
  {
    assert forall i :: 0 <= i < |t| ==> s[i] == s[..|t|][i];
  }

  /** Line 35, tag by tag: any well-formed text is rewritten as the attribute rule says for each tag. */
  lemma AttributesPass(ps: seq<Piece>)
    requires AllWellFormed(ps)
    ensures Sub(AttrTag, Render(ps)) == Render(Apply(AttrTag, ps))
  {
    FollowsLocal(AttrTag, ps);
    SubByTags(AttrTag, ps, "");
    assert Render(ps) + "" == Render(ps);
    assert Render(Apply(AttrTag, ps)) + "" == Render(Apply(AttrTag, ps));
  }

  /** Lower-case letters and digits only. */
  predicate Word(n: string) {
    forall i :: 0 <= i < |n| ==> 'a' <= n[i] <= 'z' || '0' <= n[i] <= '9'
  }

  /** Where a listed name, followed by whitespace, begins a tag, that name is the alternative found. */
  lemma {:induction false} AttrNameFinds(b: string, names: seq<string>, n: string)
    requires n in names && forall j :: 0 <= j < |names| ==> Word(names[j])
    requires |n| < |b| && StartsWithNoCase(b, n) && IsSpace(b[|n|])
    ensures AttrName(b, names) == Some(n)
    decreases |names|
  {
    var m := names[0];
    assert Word(m);
    if m != n {
      OtherNameClash(b, m, n);
      AttrNameFinds(b, names[1..], n);
    }
  }

  /** Of two different words, at most one can begin a tag and be followed there by whitespace. */
  lemma OtherNameClash(b: string, m: string, n: string)
    requires Word(m) && Word(n) && m != n
    requires |n| < |b| && StartsWithNoCase(b, n) && IsSpace(b[|n|])
    ensures !(|m| < |b| && StartsWithNoCase(b, m) && IsSpace(b[|m|]))
  {
    if |m| < |n| {
      assert LowerChar(b[|m|]) == n[|m|];
      assert !IsSpace(b[|m|]);
    } else if |n| < |m| {
      assert LowerChar(b[|n|]) == b[|n|];
      assert |m| < |b| ==> LowerChar(b[|n|]) != m[|n|];
    } else {
      var i := FirstDifference(m, n);
      assert LowerChar(b[i]) == n[i] != m[i];
    }
  }

  /** A position where two different strings of the same length differ. */
  function FirstDifference(m: string, n: string): (i: nat)
    requires |m| == |n| && m != n
    ensures i < |m| && m[i] != n[i]
    decreases |m|
  {
    if m[0] != n[0] then 0
    else
      assert m == [m[0]] + m[1..] && n == [n[0]] + n[1..];
      1 + FirstDifference(m[1..], n[1..])
  }

  lemma AttrTagNamesWords()
    ensures forall j :: 0 <= j < |AttrTagNames| ==> Word(AttrTagNames[j])
  {
  }

  /**
   * Line 35: a supported tag whose name is followed by whitespace loses
   * everything after the name, `<P class="x">` becoming `<P>`.
   */
  lemma AttributesDropped(pre: string, b: string, n: string, post: string)
    requires LtFree(pre) && TagBody(b) && n in AttrTagNames
    requires |n| < |b| && StartsWithNoCase(b, n) && IsSpace(b[|n|])
    ensures Sub(AttrTag, pre + (TagText(b) + post)) == pre + (TagText(b[..|n|]) + Sub(AttrTag, post))
  {
    AttrTagNamesWords();
    AttrNameFinds(b, AttrTagNames, n);
    SubNoLtPrefix(AttrTag, pre, TagText(b) + post);
    AttrTagAt(b, post);
    SubAtTag(AttrTag, b, post);
  }

  // ------------------------------------------------------- images (line 38)

  /** `<imgA src="U"C>`: an image tag with its `src` value and what stands around it. */
  function ImgElement(a: string, u: string, c: string): string {
    "<img" + a + "src=\"" + u + "\"" + c + ">"
  }

  /** Quote-free text without `>`: what `[^>]*` and `[^"]*` may both cover. */
  predicate Plain(t: string) {
    forall i :: 0 <= i < |t| ==> t[i] != '"' && t[i] != '>'
  }

  /** No `src="`, in any case, starts inside `t`. */
  predicate NoSrcIn(t: string) {
    forall i :: 0 <= i && i + 5 <= |t| ==> !StartsWithNoCase(t[i..], "src=\"")
  }

  /**
   * Line 38: an image tag is reduced to `<img src="U">`, whatever its other
   * attributes, quoted or not (`<img alt="x" src="U" width="5">`). The
   * regular expression takes the last `src="` before the tag's first `>`, so
   * a value ending in `src=`, or a later attribute such as `data-src="y"`,
   * would win instead; the requirements on `u` and `c` leave those cases out.
   */
  lemma ImgTagKeepsSrc(pre: string, a: string, u: string, c: string, post: string)
    requires LtFree(pre) && NoGt(a) && Plain(u) && NoGt(c) && NoSrcIn(c)
    requires !(|u| >= 4 && StartsWithNoCase(u[|u| - 4..], "src="))
    ensures Sub(ImgTag, pre + (ImgElement(a, u, c) + post)) ==
      pre + ("<img src=\"" + u + "\">" + Sub(ImgTag, post))
  {
    var s := ImgElement(a, u, c) + post;
    var n := 11 + |a| + |u| + |c|;
    ImgTagMatch(a, u, c, post, s);
    ReplaceAfterTagFree(ImgTag, pre, s, post, Match(n, u, "<img src=\"" + u + "\">"));
  }

  /** `<img[^>]*src="([^"]*)"[^>]*>` matches the whole image element, with `u` as its group. */
  lemma ImgTagMatch(a: string, u: string, c: string, post: string, s: string)
    requires s == ImgElement(a, u, c) + post && NoGt(a) && Plain(u) && NoGt(c) && NoSrcIn(c)
    requires !(|u| >= 4 && StartsWithNoCase(u[|u| - 4..], "src="))
    ensures MatchAt(ImgTag, s) == Some(Match(11 + |a| + |u| + |c|, u, "<img src=\"" + u + "\">"))
    ensures s[11 + |a| + |u| + |c|..] == post
  {
    var p0 := 4 + |a|;
    var q := p0 + 5 + |u|;
    var top := q + 1 + |c|;
    ImgLayout(a, u, c, post, s, p0, q, top);
    ImgCharFacts(a, u, c, s, p0, q, top);
    ImgLiterals();
    NoCaseAt(s, 0, "<img");
    NoCaseAt(s, p0, "src=\"");
    ImgMatchFrom(s, p0, q, top, u);
  }

  /** The match, from the places of the `src="`, of its closing quote and of the tag's `>`. */
  lemma ImgMatchFrom(s: string, p0: nat, q: nat, top: nat, u: string)
    requires 4 <= p0 && p0 + 5 <= q < top < |s| && s[p0 + 5..q] == u
    requires StartsWithNoCase(s, "<img") && StartsWithNoCase(s[p0..], "src=\"")
    requires s[p0 + 4] == '"' && s[q] == '"' && s[top] == '>'
    requires forall i :: 4 <= i < top ==> s[i] != '>'
    requires forall i :: p0 + 5 <= i < q ==> s[i] != '"'
    requires forall i :: q < i < top ==> s[i] != '>'
    requires forall p :: q < p && p + 5 <= top ==> !StartsWithNoCase(s[p..], "src=\"")
    requires q - 4 >= p0 + 5 ==> !StartsWithNoCase(s[q - 4..q], "src=")
    ensures MatchAt(ImgTag, s) == Some(Match(top + 1, u, "<img src=\"" + u + "\">"))
  {
    assert FirstFrom(s, 4, '>') == Some(top);
    assert FirstFrom(s, p0 + 5, '"') == Some(q);
    assert FirstFrom(s, q + 1, '>') == Some(top);
    forall p | p0 < p <= top ensures NoSrcAt(s, p) {
      NoSrcAbove(s, p0, q, top, p);
    }
    ImgSrcAttrFinds(s, top, p0, q, top);
    ImgMatch(s, p0, q, top, u);
  }

  lemma ImgCharFacts(a: string, u: string, c: string, s: string, p0: nat, q: nat, top: nat)
    requires NoGt(a) && Plain(u) && NoGt(c) && NoSrcIn(c)
    requires p0 == 4 + |a| && q == p0 + 5 + |u| && top == q + 1 + |c| && top < |s|
    requires s[4..p0] == a && s[p0..p0 + 5] == "src=\"" && s[p0 + 5..q] == u && s[q + 1..top] == c
    requires s[q] == '"'
    requires !(|u| >= 4 && StartsWithNoCase(u[|u| - 4..], "src="))
    ensures forall i :: 4 <= i < top ==> s[i] != '>'
    ensures forall i :: p0 + 5 <= i < q ==> s[i] != '"'
    ensures forall i :: q < i < top ==> s[i] != '>'
    ensures forall p :: q < p && p + 5 <= top ==> !StartsWithNoCase(s[p..], "src=\"")
    ensures q - 4 >= p0 + 5 ==> !StartsWithNoCase(s[q - 4..q], "src=")
  {
    forall i | 4 <= i < top ensures s[i] != '>' {
      if i < p0 {
        assert s[i] == s[4..p0][i - 4];
      } else if i < p0 + 5 {
        assert s[i] == s[p0..p0 + 5][i - p0];
      } else if i < q {
        assert s[i] == s[p0 + 5..q][i - p0 - 5];
      } else if q < i {
        assert s[i] == s[q + 1..top][i - q - 1];
      }
    }
    forall i | p0 + 5 <= i < q ensures s[i] != '"' {
      assert s[i] == s[p0 + 5..q][i - p0 - 5];
    }
    forall i | q < i < top ensures s[i] != '>' {
      assert s[i] == s[q + 1..top][i - q - 1];
    }
    forall p | q < p && p + 5 <= top ensures !StartsWithNoCase(s[p..], "src=\"") {
      WindowInside(s, c, q + 1, p);
    }
    if q - 4 >= p0 + 5 {
      assert s[q - 4..q] == s[p0 + 5..q][|u| - 4..];
    }
  }

  lemma ImgLiterals()
    ensures Lowered("<img") && Lowered("src=\"") && Lowered("src=")
  {
    assert LowerChar('<') == '<' && LowerChar('i') == 'i' && LowerChar('m') == 'm' && LowerChar('g') == 'g';
    assert LowerChar('s') == 's' && LowerChar('r') == 'r' && LowerChar('c') == 'c' && LowerChar('=') == '=' && LowerChar('"') == '"';
  }

  lemma ImgLayout(a: string, u: string, c: string, post: string, s: string, p0: nat, q: nat, top: nat)
    requires s == ImgElement(a, u, c) + post
    requires p0 == 4 + |a| && q == p0 + 5 + |u| && top == q + 1 + |c|
    ensures top < |s| && |s| == top + 1 + |post|
    ensures s[..4] == "<img" && s[4..p0] == a && s[p0..p0 + 5] == "src=\""
    ensures s[p0 + 5..q] == u && s[q + 1..top] == c && s[top + 1..] == post
    ensures s[p0 + 4] == '"' && s[q] == '"' && s[top] == '>'
  {
    assert s == "<img" + (a + ("src=\"" + (u + ("\"" + (c + (">" + post))))));
  }

  /** No `src="` starts at `p`. */
  predicate NoSrcAt(s: string, p: nat) {
    p + 5 > |s| || !StartsWithNoCase(s[p..], "src=\"")
  }

  /** Above the `src="` at `p0` and up to the tag's `>`, no other `src="` with a closing quote starts. */
  lemma NoSrcAbove(s: string, p0: nat, q: nat, top: nat, p: nat)
    requires 4 <= p0 && p0 + 5 <= q < top < |s|
    requires s[p0 + 4] == '"' && s[q] == '"' && s[top] == '>'
    requires forall i :: p0 + 5 <= i < q ==> s[i] != '"'
    requires forall p :: q < p && p + 5 <= top ==> !StartsWithNoCase(s[p..], "src=\"")
    requires q - 4 >= p0 + 5 ==> !StartsWithNoCase(s[q - 4..q], "src=")
    requires p0 < p <= top
    ensures NoSrcAt(s, p)
  {
    if p + 5 <= |s| {
      if p <= p0 + 4 {
        WindowBlocked(s, p, p0 + 4);
      } else if p < q - 4 {
        QuoteMissing(s, p);
      } else if p == q - 4 {
        assert forall i :: 0 <= i < 4 ==> s[p..][i] == s[q - 4..q][i];
      } else if p <= q {
        WindowBlocked(s, p, q);
      } else if top < p + 5 {
        WindowBlocked(s, p, top);
      }
    }
  }

  /** A window of `s` that lies inside its copy of `c` is that window of `c`. */
  lemma WindowInside(s: string, c: string, k: nat, p: nat)
    requires k + |c| <= |s| && s[k..k + |c|] == c && NoSrcIn(c)
    requires k <= p && p + 5 <= k + |c|
    ensures !StartsWithNoCase(s[p..], "src=\"")
  {
    assert forall i :: 0 <= i < 5 ==> s[p..][i] == c[p - k..][i];
    assert !StartsWithNoCase(c[p - k..], "src=\"");
  }

  /** A `>` anywhere in the window, or a `"` before its last place, rules out `src="` there. */
  lemma WindowBlocked(s: string, p: nat, j: nat)
    requires p <= j < p + 5 && p + 5 <= |s|
    requires s[j] == '>' || (s[j] == '"' && j < p + 4)
    ensures !StartsWithNoCase(s[p..], "src=\"")
  {
    assert s[p..][j - p] == s[j];
    assert LowerChar(s[j]) == s[j];
  }

  /** Without a `"` in its last place, the window is not `src="`. */
  lemma QuoteMissing(s: string, p: nat)
    requires p + 5 <= |s| && s[p + 4] != '"'
    ensures !StartsWithNoCase(s[p..], "src=\"")
  {
    assert s[p..][4] == s[p + 4];
    LowerOfNonLetter(s[p + 4], '"');
  }

  /** The downward search of `ImgSrcAttr` from `p` stops at `p0`, the highest place it accepts. */
  lemma ImgSrcAttrFinds(s: string, p: nat, p0: nat, q: nat, g: nat)
    requires 4 <= p0 <= p && p0 + 5 <= |s| && StartsWithNoCase(s[p0..], "src=\"")
    requires FirstFrom(s, p0 + 5, '"') == Some(q) && FirstFrom(s, q + 1, '>') == Some(g)
    requires forall i :: p0 < i <= p ==> NoSrcAt(s, i)
    ensures ImgSrcAttr(s, p) == Some((p0, q, g))
  {
    ImgSrcAttrDescends(s, p, p0);
    ImgSrcAttrStops(s, p0, q, g);
  }

  /** Down to `p0`, with no `src="` starting on the way, the search gives what it gives at `p0`. */
  lemma {:induction false} ImgSrcAttrDescends(s: string, p: nat, p0: nat)
    requires 4 <= p0 <= p
    requires forall i :: p0 < i <= p ==> NoSrcAt(s, i)
    ensures ImgSrcAttr(s, p) == ImgSrcAttr(s, p0)
    decreases p
  {
    if p > p0 {
      ImgSrcAttrPasses(s, p);
      ImgSrcAttrDescends(s, p - 1, p0);
    }
  }

  /** Where no `src="` starts, the downward search moves on to the place below. */
  lemma ImgSrcAttrPasses(s: string, p: nat)
    requires 4 < p && NoSrcAt(s, p)
    ensures ImgSrcAttr(s, p) == ImgSrcAttr(s, p - 1)
  {
  }

  /** Where `src="` starts and both the closing quote and the `>` are found, the search stops. */
  lemma ImgSrcAttrStops(s: string, p0: nat, q: nat, g: nat)
    requires 4 <= p0 && p0 + 5 <= |s| && StartsWithNoCase(s[p0..], "src=\"")
    requires FirstFrom(s, p0 + 5, '"') == Some(q) && FirstFrom(s, q + 1, '>') == Some(g)
    ensures ImgSrcAttr(s, p0) == Some((p0, q, g))
  {
    assert SrcAt(s, p0) == Some((p0, q, g));
  }

  lemma ImgMatch(s: string, p0: nat, q: nat, top: nat, u: string)
    requires StartsWithNoCase(s, "<img") && FirstFrom(s, 4, '>') == Some(top)
    requires ImgSrcAttr(s, top) == Some((p0, q, top)) && s[p0 + 5..q] == u
    ensures MatchAt(ImgTag, s) == Some(Match(top + 1, u, "<img src=\"" + u + "\">"))
  {
  }

  // ------------------------------------------------------- paragraphs (lines 41-42)

  /** The attribute and image passes leave a paragraph `<p>x</p>` and the text before it as they are. */
  lemma ParagraphSurvivesTagPasses(pre: string, x: string, post: string)
    requires LtFree(pre) && LtFree(x)
    ensures Sub(ImgTag, Sub(AttrTag, pre + ("<p>" + (x + ("</p>" + post))))) ==
      pre + ("<p>" + (x + ("</p>" + Sub(ImgTag, Sub(AttrTag, post)))))
  {
    AttrKeepsOpenPara(x + ("</p>" + post));
    AttrKeepsClosePara(post);
    ParaPassesThrough(AttrTag, pre, x, post);
    var post1 := Sub(AttrTag, post);
    ImgSkipsParaTags(x + ("</p>" + post1));
    ImgSkipsParaTags(post1);
    ParaPassesThrough(ImgTag, pre, x, post1);
  }

  /** Line 41: a paragraph holding only whitespace is removed, and what follows is cleaned as before. */
  lemma SimplifyDropsEmptyParagraph(pre: string, w: string, post: string)
    requires LtFree(pre) && AllSpace(w)
    ensures SimplifyTags(pre + ("<p>" + (w + ("</p>" + post)))) == pre + SimplifyTags(post)
  {
    assert LtFree(w);
    ParagraphSurvivesTagPasses(pre, w, post);
    var post2 := Sub(ImgTag, Sub(AttrTag, post));
    EmptyParaDropped(true, pre, w, post2);
    SubNoLtPrefix(NbspPara, pre, Sub(EmptyPara(true), post2));
  }

  /** Line 42: a paragraph holding only `&nbsp;` between whitespace is removed. */
  lemma SimplifyDropsNbspParagraph(pre: string, w1: string, w2: string, x: string, post: string)
    requires LtFree(pre) && AllSpace(w1) && AllSpace(w2) && x == w1 + ("&nbsp;" + w2)
    ensures SimplifyTags(pre + ("<p>" + (x + ("</p>" + post)))) == pre + SimplifyTags(post)
  {
    NbspText(w1, w2, x);
    ParagraphSurvivesTagPasses(pre, x, post);
    var post2 := Sub(ImgTag, Sub(AttrTag, post));
    TextParaKept(true, pre, x, post2);
    NbspParaDropped(pre, w1, w2, x, Sub(EmptyPara(true), post2));
  }

  lemma NbspText(w1: string, w2: string, x: string)
    requires AllSpace(w1) && AllSpace(w2) && x == w1 + ("&nbsp;" + w2)
    ensures LtFree(x) && !IsSpace(x[|w1|])
  {
    assert x[|w1|] == '&';
  }

  /** Lines 41-42 keep a paragraph whose text opens with something other than whitespace or `&`. */
  lemma SimplifyKeepsParagraph(pre: string, x: string, post: string)
    requires LtFree(pre) && LtFree(x) && OpensWithText(x)
    ensures SimplifyTags(pre + ("<p>" + (x + ("</p>" + post)))) == pre + ("<p>" + (x + ("</p>" + SimplifyTags(post))))
  {
    ParagraphSurvivesTagPasses(pre, x, post);
    var post2 := Sub(ImgTag, Sub(AttrTag, post));
    TextParaKept(true, pre, x, post2);
    TextParaKeptByNbsp(pre, x, Sub(EmptyPara(true), post2));
  }

  // ------------------------------------------------------- whole cleaner

  /** A listed wrapper name leaves paragraphs alone in both of its patterns. */
  lemma WrapperKeepsParagraphs(t: string)
    requires PlainName(t) && |t| >= 2
    ensures KeepsParagraphs(WrapperOpen(t)) && KeepsParagraphs(WrapperClose(t))
  {
    assert ("/p")[0] == '/' && LowerChar('/') == '/';
  }

  /** Lines 15-18 copy a paragraph and the text without tags before it. */
  lemma StructureKeepsParagraph(pre: string, x: string, post: string)
    requires LtFree(pre) && LtFree(x)
    ensures RemoveStructure(pre + ("<p>" + (x + ("</p>" + post)))) == pre + ("<p>" + (x + ("</p>" + RemoveStructure(post))))
  {
    StructKeepsParagraphs("html");
    StructKeepsParagraphs("head");
    StructKeepsParagraphs("body");
    StructKeepsParagraphs("doctype");
    FourPassesKeepParagraph(StructTag("html"), StructTag("head"), StructTag("body"), StructTag("doctype"), pre, x, post);
  }

  /** Four passes that each leave paragraphs alone copy a paragraph after text without tags. */
  lemma FourPassesKeepParagraph(p1: Pattern, p2: Pattern, p3: Pattern, p4: Pattern, pre: string, x: string, post: string)
    requires KeepsParagraphs(p1) && KeepsParagraphs(p2) && KeepsParagraphs(p3) && KeepsParagraphs(p4)
    requires LtFree(pre) && LtFree(x)
    ensures Sub(p4, Sub(p3, Sub(p2, Sub(p1, pre + ("<p>" + (x + ("</p>" + post))))))) ==
      pre + ("<p>" + (x + ("</p>" + Sub(p4, Sub(p3, Sub(p2, Sub(p1, post)))))))
  {
    var x1 := Sub(p1, post);
    var x2 := Sub(p2, x1);
    ParagraphThroughLocal(p1, pre, x, post);
    ParagraphThroughLocal(p2, pre, x, x1);
    ParagraphThroughLocal(p3, pre, x, x2);
    ParagraphThroughLocal(p4, pre, x, Sub(p3, x2));
  }

  /** Lines 15-18 copy text without tags at the front. */
  lemma StructureKeepsPrefix(pre: string, post: string)
    requires LtFree(pre)
    ensures RemoveStructure(pre + post) == pre + RemoveStructure(post)
  {
    var p1, p2, p3, p4 := StructTag("html"), StructTag("head"), StructTag("body"), StructTag("doctype");
    var x1 := Sub(p1, post);
    var x2 := Sub(p2, x1);
    SubNoLtPrefix(p1, pre, post);
    SubNoLtPrefix(p2, pre, x1);
    SubNoLtPrefix(p3, pre, x2);
    SubNoLtPrefix(p4, pre, Sub(p3, x2));
  }

  /** Lines 29-32 copy a paragraph and the text without tags before it. */
  lemma {:induction false} WrappersKeepParagraph(pre: string, x: string, post: string, tags: seq<string>)
    requires LtFree(pre) && LtFree(x) && forall i :: 0 <= i < |tags| ==> PlainName(tags[i]) && |tags[i]| >= 2
    ensures RemoveWrappers(pre + ("<p>" + (x + ("</p>" + post))), tags) ==
      pre + ("<p>" + (x + ("</p>" + RemoveWrappers(post, tags))))
    decreases |tags|
  {
    if |tags| > 0 {
      var o, c := WrapperOpen(tags[0]), WrapperClose(tags[0]);
      WrapperKeepsParagraphs(tags[0]);
      ParagraphThroughLocal(o, pre, x, post);
      ParagraphThroughLocal(c, pre, x, Sub(o, post));
      WrappersKeepParagraph(pre, x, Sub(c, Sub(o, post)), tags[1..]);
    }
  }

  /** Lines 29-32 copy text without tags at the front. */
  lemma {:induction false} WrappersKeepPrefix(pre: string, post: string, tags: seq<string>)
    requires LtFree(pre)
    ensures RemoveWrappers(pre + post, tags) == pre + RemoveWrappers(post, tags)
    decreases |tags|
  {
    if |tags| > 0 {
      var o, c := WrapperOpen(tags[0]), WrapperClose(tags[0]);
      SubNoLtPrefix(o, pre, post);
      SubNoLtPrefix(c, pre, Sub(o, post));
      WrappersKeepPrefix(pre, Sub(c, Sub(o, post)), tags[1..]);
    }
  }

  /** Lines 15-32 copy a paragraph and the text without tags before it. */
  lemma TelegraphTagPassesKeepParagraph(pre: string, x: string, post: string)
    requires LtFree(pre) && LtFree(x)
    ensures TelegraphTagPasses(pre + ("<p>" + (x + ("</p>" + post)))) ==
      pre + ("<p>" + (x + ("</p>" + TelegraphTagPasses(post))))
  {
    var x1 := RemoveStructure(post);
    StructureKeepsParagraph(pre, x, post);
    CollapseHeadingsKeepsParagraph(pre, x, x1);
    UnsupportedTagsPlain();
    WrappersKeepParagraph(pre, x, CollapseHeadings(x1), UnsupportedTags);
  }

  /** Lines 15-32 copy text without tags at the front. */
  lemma TelegraphTagPassesKeepPrefix(pre: string, post: string)
    requires LtFree(pre)
    ensures TelegraphTagPasses(pre + post) == pre + TelegraphTagPasses(post)
  {
    var x1 := RemoveStructure(post);
    StructureKeepsPrefix(pre, post);
    CollapseHeadingsKeepsPrefix(pre, x1);
    WrappersKeepPrefix(pre, CollapseHeadings(x1), UnsupportedTags);
  }

  /** Lines 35-42 copy text without tags at the front. */
  lemma SimplifyTagsKeepsPrefix(pre: string, post: string)
    requires LtFree(pre)
    ensures SimplifyTags(pre + post) == pre + SimplifyTags(post)
  {
    var x1 := Sub(AttrTag, post);
    var x2 := Sub(ImgTag, x1);
    SubNoLtPrefix(AttrTag, pre, post);
    SubNoLtPrefix(ImgTag, pre, x1);
    SubNoLtPrefix(EmptyPara(true), pre, x2);
    SubNoLtPrefix(NbspPara, pre, Sub(EmptyPara(true), x2));
  }

  /** An empty paragraph after text without tags makes no difference to the cleaned page. */
  lemma TelegraphDropsEmptyParagraph(pre: string, w: string, post: string)
    requires LtFree(pre) && AllSpace(w)
    ensures CleanHtmlForTelegraph(pre + ("<p>" + (w + ("</p>" + post)))) == CleanHtmlForTelegraph(pre + post)
  {
    assert LtFree(w);
    var e := TelegraphTagPasses(post);
    TelegraphTagPassesKeepParagraph(pre, w, post);
    TelegraphTagPassesKeepPrefix(pre, post);
    SimplifyDropsEmptyParagraph(pre, w, e);
    SimplifyTagsKeepsPrefix(pre, e);
  }

  /** A paragraph holding only `&nbsp;` after text without tags makes no difference to the cleaned page. */
  lemma TelegraphDropsNbspParagraph(pre: string, w1: string, w2: string, x: string, post: string)
    requires LtFree(pre) && AllSpace(w1) && AllSpace(w2) && x == w1 + ("&nbsp;" + w2)
    ensures CleanHtmlForTelegraph(pre + ("<p>" + (x + ("</p>" + post)))) == CleanHtmlForTelegraph(pre + post)
  {
    NbspText(w1, w2, x);
    var e := TelegraphTagPasses(post);
    TelegraphTagPassesKeepParagraph(pre, x, post);
    TelegraphTagPassesKeepPrefix(pre, post);
    SimplifyDropsNbspParagraph(pre, w1, w2, x, e);
    SimplifyTagsKeepsPrefix(pre, e);
  }
}
