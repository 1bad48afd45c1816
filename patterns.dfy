/**
 * The regular expressions that the scraper, the Telegraph cleaner and the
 * job apply to HTML text, each modelled by the match it makes at the start
 * of a string (`MatchAt`), and Python's `re.sub`, `re.findall` and
 * `re.search` over them: a left-to-right scan that takes the match found at
 * each position, skips past it, and never looks back.
 *
 * IGNORECASE is modelled for ASCII letters: every literal below is written
 * in lower case and compared with `LowerChar` of the text.
 */
module Patterns {
  import opened Wrappers
  import opened Text

  datatype Pattern =
    | StructTag(name: string)
      // `</?NAME[^>]*>`, IGNORECASE, replaced by ""
    | HeadingOpen(d1: char, d2: char, to: char)
      // `<h[D1D2]([^>]*)>` replaced by `<hTO\1>` (case-sensitive)
    | HeadingClose(d1: char, d2: char, to: char)
      // `</h[D1D2]>` replaced by `</hTO>` (case-sensitive)
    | WrapperOpen(name: string)
      // `<NAME[^>]*>`, IGNORECASE, replaced by ""
    | WrapperClose(name: string)
      // `</NAME>`, IGNORECASE, replaced by ""
    | AttrTag
      // `<(p|h3|h4|strong|em|u|s|code|pre|blockquote|br)\s+[^>]*>`, IGNORECASE, replaced by `<\1>`
    | ImgTag
      // `<img[^>]*src="([^"]*)"[^>]*>`, IGNORECASE, replaced by `<img src="\1">`
    | EmptyPara(ignoreCase: bool)
      // `<p>\s*</p>` replaced by ""
    | NbspPara
      // `<p>\s*&nbsp;\s*</p>`, IGNORECASE, replaced by ""
    | SpaceRun
      // `\s+` replaced by " "
    | BlankLines
      // `\n\s*\n` replaced by "\n"
    | PlaceholderAnchor
      // `<a href="LINK_PLACEHOLDER">(.+?)</a>` replaced by `\1`
    | ParaText
      // `<p>([^<]+)</p>`, used with findall
    | ImgSrc
      // `<img src="([^"]+)"`, used with search

  /** A match of `len` characters, its first group, and the text `re.sub` puts in its place. */
  datatype Match = Match(len: nat, group: string, rep: string)

  /** Case-insensitive `startswith` against a lower-case literal. */
  predicate StartsWithNoCase(s: string, p: string) {
    |p| <= |s| && forall i :: 0 <= i < |p| ==> LowerChar(s[i]) == p[i]
  }

  /** The first index at or after `k` holding `c`. */
  function FirstFrom(s: string, k: nat, c: char): (r: Option<nat>)
    ensures r.Some? ==> k <= r.value < |s| && s[r.value] == c
    ensures r.Some? ==> forall i :: k <= i < r.value ==> s[i] != c
    ensures r.None? ==> forall i :: k <= i < |s| ==> s[i] != c
    decreases |s| - k
  {
    if k >= |s| then None else if s[k] == c then Some(k) else FirstFrom(s, k + 1, c)
  }

  /** The last newline in `s[k..e]`, if any. */
  function LastNewline(s: string, k: nat, e: nat): (r: Option<nat>)
    requires k <= e <= |s|
    ensures r.Some? ==> k <= r.value < e && s[r.value] == '\n'
    ensures r.Some? ==> forall i :: r.value < i < e ==> s[i] != '\n'
    ensures r.None? ==> forall i :: k <= i < e ==> s[i] != '\n'
    decreases e - k
  {
    if e == k then None
    else if s[e - 1] == '\n' then Some(e - 1)
    else LastNewline(s, k, e - 1)
  }

  /** The alternatives of the attribute-stripping pattern, in the order the regex tries them. */
  const AttrTagNames: seq<string> :=
    ["p", "h3", "h4", "strong", "em", "u", "s", "code", "pre", "blockquote", "br"]

  /** The first alternative, from `names`, that follows `<` and is itself followed by whitespace. */
  function AttrAlternative(s: string, names: seq<string>): (r: Option<string>)
    ensures r.Some? ==> r.value in names && 2 + |r.value| <= |s|
    ensures r.Some? ==> StartsWithNoCase(s[1..], r.value) && IsSpace(s[1 + |r.value|])
  {
    if |names| == 0 then None
    else if 2 + |names[0]| <= |s| && StartsWithNoCase(s[1..], names[0]) && IsSpace(s[1 + |names[0]|])
    then Some(names[0])
    else AttrAlternative(s, names[1..])
  }

  /**
   * For `<img[^>]*src="([^"]*)"[^>]*>`: the greedy `[^>]*` makes the regex
   * take the LAST position `p <= top` where `src="` starts and the rest of
   * the pattern can still match. Returns `p`, the closing quote and the `>`.
   */
  function ImgSrcAttr(s: string, p: nat): (r: Option<(nat, nat, nat)>)
    ensures r.Some? ==> 4 <= r.value.0 <= p && r.value.0 + 5 <= r.value.1 < r.value.2 < |s|
    ensures r.Some? ==> StartsWithNoCase(s[r.value.0..], "src=\"")
    ensures r.Some? ==> s[r.value.1] == '"' && s[r.value.2] == '>'
    decreases p
  {
    if p < 4 then None
    else match SrcAt(s, p)
      case Some(x) => Some(x)
      case None => ImgSrcAttr(s, p - 1)
  }

  /** Whether `src="`, a closing quote and then a `>` can be matched from `p`. */
  function SrcAt(s: string, p: nat): (r: Option<(nat, nat, nat)>)
    ensures r.Some? ==> r.value.0 == p && p + 5 <= r.value.1 < r.value.2 < |s|
    ensures r.Some? ==> StartsWithNoCase(s[p..], "src=\"")
    ensures r.Some? ==> s[r.value.1] == '"' && s[r.value.2] == '>'
  {
    if p + 5 <= |s| && StartsWithNoCase(s[p..], "src=\"") then
      match FirstFrom(s, p + 5, '"')
      case None => None
      case Some(q) =>
        match FirstFrom(s, q + 1, '>')
        case None => None
        case Some(g) => Some((p, q, g))
    else None
  }

  const AnchorOpen: string := "<a href=\"LINK_PLACEHOLDER\">"

  /**
   * For the lazy `(.+?)</a>`: the first `j > k` where `</a>` starts, provided
   * no newline lies in `s[k..j]` (`.` does not match a newline).
   */
  function LazyAnchorClose(s: string, k: nat, j: nat): (r: Option<nat>)
    requires k < j
    ensures r.Some? ==> j <= r.value && r.value + 4 <= |s| && s[r.value..r.value + 4] == "</a>"
    decreases |s| - j
  {
    if j > |s| || s[j - 1] == '\n' then None
    else if StartsWith(s[j..], "</a>") then Some(j)
    else if j == |s| then None
    else LazyAnchorClose(s, k, j + 1)
  }

  /** `</?NAME[^>]*>`, IGNORECASE. */
  function MatchStructTag(name: string, s: string): (r: Option<Match>)
    ensures r.Some? ==> 0 < r.value.len <= |s|
    ensures r.Some? ==> s[0] == '<'
  {
    if |s| == 0 || s[0] != '<' then None
    else
      var k := if |s| > 1 && s[1] == '/' then 2 else 1;
      if !StartsWithNoCase(s[k..], name) then None
      else (match FirstFrom(s, k + |name|, '>')
            case None => None
            case Some(g) => Some(Match(g + 1, "", "")))
  }

  /** `<h[D1D2]([^>]*)>` replaced by `<hTO\1>`. */
  function MatchHeadingOpen(d1: char, d2: char, to: char, s: string): (r: Option<Match>)
    ensures r.Some? ==> 0 < r.value.len <= |s|
    ensures r.Some? ==> s[0] == '<'
  {
    if |s| < 3 || s[0] != '<' || s[1] != 'h' || (s[2] != d1 && s[2] != d2) then None
    else (match FirstFrom(s, 3, '>')
          case None => None
          case Some(g) => Some(Match(g + 1, s[3..g], "<h" + [to] + s[3..g] + ">")))
  }

  /** `</h[D1D2]>` replaced by `</hTO>`. */
  function MatchHeadingClose(d1: char, d2: char, to: char, s: string): (r: Option<Match>)
    ensures r.Some? ==> 0 < r.value.len <= |s|
    ensures r.Some? ==> s[0] == '<'
  {
    if |s| < 5 || s[..3] != "</h" || (s[3] != d1 && s[3] != d2) || s[4] != '>' then None
    else Some(Match(5, "", "</h" + [to] + ">"))
  }

  /** `<NAME[^>]*>`, IGNORECASE. */
  function MatchWrapperOpen(name: string, s: string): (r: Option<Match>)
    ensures r.Some? ==> 0 < r.value.len <= |s|
    ensures r.Some? ==> s[0] == '<'
  {
    if |s| == 0 || s[0] != '<' || !StartsWithNoCase(s[1..], name) then None
    else (match FirstFrom(s, 1 + |name|, '>')
          case None => None
          case Some(g) => Some(Match(g + 1, "", "")))
  }

  /** `</NAME>`, IGNORECASE. */
  function MatchWrapperClose(name: string, s: string): (r: Option<Match>)
    ensures r.Some? ==> 0 < r.value.len <= |s|
    ensures r.Some? ==> s[0] == '<'
  {
    if StartsWithNoCase(s, "</" + name + ">") then Some(Match(|name| + 3, "", "")) else None
  }

  /** `<(p|h3|...|br)\s+[^>]*>` replaced by `<\1>`, IGNORECASE. */
  function MatchAttrTag(names: seq<string>, s: string): (r: Option<Match>)
    ensures r.Some? ==> 0 < r.value.len <= |s|
    ensures r.Some? ==> s[0] == '<'
  {
    if |s| == 0 || s[0] != '<' then None
    else (match AttrAlternative(s, names)
          case None => None
          case Some(a) =>
            (match FirstFrom(s, 1 + |a|, '>')
             case None => None
             case Some(g) => Some(Match(g + 1, s[1..1 + |a|], "<" + s[1..1 + |a|] + ">"))))
  }

  /** `<img[^>]*src="([^"]*)"[^>]*>` replaced by `<img src="\1">`, IGNORECASE. */
  function MatchImgTag(s: string): (r: Option<Match>)
    ensures r.Some? ==> 0 < r.value.len <= |s|
    ensures r.Some? ==> s[0] == '<'
  {
    if !StartsWithNoCase(s, "<img") then None
    else
      var top := match FirstFrom(s, 4, '>') case Some(g) => g case None => |s|;
      (match ImgSrcAttr(s, top)
       case None => None
       case Some(t) => Some(Match(t.2 + 1, s[t.0 + 5..t.1], "<img src=\"" + s[t.0 + 5..t.1] + "\">")))
  }

  /** `<p>\s*</p>`, with or without IGNORECASE. */
  function MatchEmptyPara(ignoreCase: bool, s: string): (r: Option<Match>)
    ensures r.Some? ==> 0 < r.value.len <= |s|
    ensures r.Some? ==> s[0] == '<'
  {
    if !(if ignoreCase then StartsWithNoCase(s, "<p>") else StartsWith(s, "<p>")) then None
    else
      var e := SpaceRunEnd(s, 3);
      if (if ignoreCase then StartsWithNoCase(s[e..], "</p>") else StartsWith(s[e..], "</p>"))
      then Some(Match(e + 4, "", ""))
      else None
  }

  /** `<p>\s*&nbsp;\s*</p>`, IGNORECASE. */
  function MatchNbspPara(s: string): (r: Option<Match>)
    ensures r.Some? ==> 0 < r.value.len <= |s|
    ensures r.Some? ==> s[0] == '<'
  {
    if !StartsWithNoCase(s, "<p>") then None
    else
      var e1 := SpaceRunEnd(s, 3);
      if !StartsWithNoCase(s[e1..], "&nbsp;") then None
      else
        var e2 := SpaceRunEnd(s, e1 + 6);
        if StartsWithNoCase(s[e2..], "</p>") then Some(Match(e2 + 4, "", "")) else None
  }

  /** `\s+` replaced by a space. */
  function MatchSpaceRun(s: string): (r: Option<Match>)
    ensures r.Some? ==> 0 < r.value.len <= |s|
  {
    if |s| == 0 || !IsSpace(s[0]) then None
    else Some(Match(SpaceRunEnd(s, 0), "", " "))
  }

  /** `\n\s*\n` replaced by a newline. */
  function MatchBlankLines(s: string): (r: Option<Match>)
    ensures r.Some? ==> 0 < r.value.len <= |s|
  {
    if |s| == 0 || s[0] != '\n' then None
    else (match LastNewline(s, 1, SpaceRunEnd(s, 1))
          case None => None
          case Some(k) => Some(Match(k + 1, "", "\n")))
  }

  /** `<a href="LINK_PLACEHOLDER">(.+?)</a>` replaced by `\1`. */
  function MatchPlaceholderAnchor(s: string): (r: Option<Match>)
    ensures r.Some? ==> 0 < r.value.len <= |s|
    ensures r.Some? ==> s[0] == '<'
  {
    if !StartsWith(s, AnchorOpen) then None
    else (match LazyAnchorClose(s, |AnchorOpen|, |AnchorOpen| + 1)
          case None => None
          case Some(j) => Some(Match(j + 4, s[|AnchorOpen|..j], s[|AnchorOpen|..j])))
  }

  /** `<p>([^<]+)</p>` */
  function MatchParaText(s: string): (r: Option<Match>)
    ensures r.Some? ==> 0 < r.value.len <= |s|
    ensures r.Some? ==> s[0] == '<'
    ensures r.Some? ==> |r.value.group| > 0 && forall i :: 0 <= i < |r.value.group| ==> r.value.group[i] != '<'
  {
    if !StartsWith(s, "<p>") then None
    else
      var e := match FirstFrom(s, 3, '<') case Some(i) => i case None => |s|;
      if e > 3 && StartsWith(s[e..], "</p>") then Some(Match(e + 4, s[3..e], s[3..e])) else None
  }

  /** `<img src="([^"]+)"` */
  function MatchImgSrc(s: string): (r: Option<Match>)
    ensures r.Some? ==> 0 < r.value.len <= |s|
    ensures r.Some? ==> s[0] == '<'
    ensures r.Some? ==> |r.value.group| > 0 && forall i :: 0 <= i < |r.value.group| ==> r.value.group[i] != '"'
  {
    var open := "<img src=\"";
    if !StartsWith(s, open) then None
    else (match FirstFrom(s, |open|, '"')
          case None => None
          case Some(q) => if q > |open| then Some(Match(q + 1, s[|open|..q], s[|open|..q])) else None)
  }

  /** The match of `pat` at the very start of `s`, if any. */
  function MatchAt(pat: Pattern, s: string): (r: Option<Match>)
    ensures r.Some? ==> 0 < r.value.len <= |s|
  {
    match pat
    case StructTag(name) => MatchStructTag(name, s)
    case HeadingOpen(d1, d2, to) => MatchHeadingOpen(d1, d2, to, s)
    case HeadingClose(d1, d2, to) => MatchHeadingClose(d1, d2, to, s)
    case WrapperOpen(name) => MatchWrapperOpen(name, s)
    case WrapperClose(name) => MatchWrapperClose(name, s)
    case AttrTag => MatchAttrTag(AttrTagNames, s)
    case ImgTag => MatchImgTag(s)
    case EmptyPara(ignoreCase) => MatchEmptyPara(ignoreCase, s)
    case NbspPara => MatchNbspPara(s)
    case SpaceRun => MatchSpaceRun(s)
    case BlankLines => MatchBlankLines(s)
    case PlaceholderAnchor => MatchPlaceholderAnchor(s)
    case ParaText => MatchParaText(s)
    case ImgSrc => MatchImgSrc(s)
  }

  /** The patterns every match of which begins with `<`. */
  predicate LtAnchored(pat: Pattern) {
    !pat.SpaceRun? && !pat.BlankLines?
  }

  lemma LtAnchoredMatch(pat: Pattern, s: string)
    requires LtAnchored(pat) && |s| > 0
    ensures MatchAt(pat, s).Some? ==> s[0] == '<'
  {
  }

  /** `re.sub(pat, rep, s)` */
  function Sub(pat: Pattern, s: string): string
    decreases |s|
  {
    if |s| == 0 then ""
    else match MatchAt(pat, s)
      case Some(m) => m.rep + Sub(pat, s[m.len..])
      case None => [s[0]] + Sub(pat, s[1..])
  }

  /** Where nothing matches, `re.sub` copies one character and moves on. */
  lemma SubCopies(pat: Pattern, c: char, t: string)
    requires MatchAt(pat, [c] + t).None?
    ensures Sub(pat, [c] + t) == [c] + Sub(pat, t)
  {
    assert ([c] + t)[1..] == t;
  }

  /** Where a match of the text `x` starts, `re.sub` emits its replacement and resumes after it. */
  lemma SubReplaces(pat: Pattern, x: string, t: string, m: Match)
    requires MatchAt(pat, x + t) == Some(m) && m.len == |x|
    ensures Sub(pat, x + t) == m.rep + Sub(pat, t)
  {
    assert (x + t)[m.len..] == t;
  }

  /** Text without `<` offers a `<`-anchored pattern nothing to match. */
  lemma NoLtNoMatch(pat: Pattern, s: string)
    requires LtAnchored(pat)
    requires forall i :: 0 <= i < |s| ==> s[i] != '<'
    ensures NoMatch(pat, s)
  {
    forall i | 0 <= i < |s| ensures MatchAt(pat, s[i..]).None? {
      LtAnchoredMatch(pat, s[i..]);
      assert s[i..][0] == s[i];
    }
  }

  /** ... so substituting it leaves that text unchanged. */
  lemma NoLtSubIdentity(pat: Pattern, s: string)
    requires LtAnchored(pat)
    requires forall i :: 0 <= i < |s| ==> s[i] != '<'
    ensures Sub(pat, s) == s
  {
    NoLtNoMatch(pat, s);
    SubWithoutMatch(pat, s);
  }

  /** A replacement at the front of tag-free text leaves that text as it is. */
  lemma ReplaceBeforeTagFree(pat: Pattern, l: string, x: string, post: string)
    requires LtAnchored(pat)
    requires Sub(pat, l + post) == x + Sub(pat, post)
    requires forall i :: 0 <= i < |post| ==> post[i] != '<'
    ensures Sub(pat, l + post) == x + post
  {
    NoLtSubIdentity(pat, post);
  }

  /** A character other than `<` is copied by a `<`-anchored substitution. */
  lemma SubCopiesNoLt(pat: Pattern, c: char, u: string)
    requires LtAnchored(pat) && c != '<'
    ensures Sub(pat, [c] + u) == [c] + Sub(pat, u)
  {
    assert ([c] + u)[0] == c;
    LtAnchoredMatch(pat, [c] + u);
    SubCopies(pat, c, u);
  }

  /** A function that copies every character other than `<` copies a prefix without `<`. */
  lemma {:induction false} CopiesNoLtPrefix(f: string -> string, pre: string, t: string)
    requires forall c: char, u: string :: c != '<' ==> f([c] + u) == [c] + f(u)
    requires forall i :: 0 <= i < |pre| ==> pre[i] != '<'
    ensures f(pre + t) == pre + f(t)
    decreases |pre|
  {
    if |pre| > 0 {
      var c, rest := pre[0], pre[1..];
      CopiesNoLtPrefix(f, rest, t);
      assert pre + t == [c] + (rest + t);
      assert [c] + (rest + f(t)) == pre + f(t);
    } else {
      assert pre + t == t;
    }
  }

  /** Text without `<` in front of the rest is copied unchanged. */
  lemma SubNoLtPrefix(pat: Pattern, pre: string, t: string)
    requires LtAnchored(pat)
    requires forall i :: 0 <= i < |pre| ==> pre[i] != '<'
    ensures Sub(pat, pre + t) == pre + Sub(pat, t)
  {
    var f := (s: string) => Sub(pat, s);
    forall c: char, u: string | c != '<' ensures f([c] + u) == [c] + f(u) {
      SubCopiesNoLt(pat, c, u);
    }
    CopiesNoLtPrefix(f, pre, t);
  }

  /** The lazy close finds the first `</a>` when the text before it has no `<` and no newline. */
  lemma {:induction false} LazyCloseFindsFirst(s: string, k: nat, j: nat, e: nat)
    requires k < j <= e && e + 4 <= |s| && s[e..e + 4] == "</a>"
    requires forall i :: j - 1 <= i < e ==> s[i] != '\n' && s[i] != '<'
    ensures LazyAnchorClose(s, k, j) == Some(e)
    decreases e - j
  {
    assert s[j..][..4] == s[j..j + 4];
    if j < e {
      assert s[j] != '<' && s[j..][0] == s[j];
      LazyCloseFindsFirst(s, k, j + 1, e);
    } else {
      assert s[j..][..4] == "</a>";
    }
  }

  /** The anchor around the placeholder link, with the text `x`. */
  function PlaceholderLink(x: string): string {
    AnchorOpen + x + "</a>"
  }

  /** The anchor matcher takes a whole placeholder link, its text as the group. */
  lemma MatchPlaceholderLink(x: string, post: string)
    requires |x| > 0 && forall i :: 0 <= i < |x| ==> x[i] != '\n' && x[i] != '<'
    ensures MatchPlaceholderAnchor(PlaceholderLink(x) + post) == Some(Match(|PlaceholderLink(x)|, x, x))
  {
    var s := PlaceholderLink(x) + post;
    var n := |AnchorOpen|;
    assert s[..n] == AnchorOpen;
    assert s[n..n + |x|] == x;
    assert s[n + |x|..n + |x| + 4] == "</a>";
    forall i | n <= i < n + |x| ensures s[i] != '\n' && s[i] != '<' {
      assert s[i] == x[i - n];
    }
    LazyCloseFindsFirst(s, n, n + 1, n + |x|);
  }

  /** ... and so does the dispatch on the pattern. */
  lemma PlaceholderLinkMatches(x: string, post: string)
    requires |x| > 0 && forall i :: 0 <= i < |x| ==> x[i] != '\n' && x[i] != '<'
    ensures MatchAt(PlaceholderAnchor, PlaceholderLink(x) + post) == Some(Match(|PlaceholderLink(x)|, x, x))
  {
    MatchPlaceholderLink(x, post);
  }

  /** A placeholder link at the start of the text is replaced by its text. */
  lemma {:induction false} ReplacePlaceholderAtStart(x: string, post: string)
    requires |x| > 0 && forall i :: 0 <= i < |x| ==> x[i] != '\n' && x[i] != '<'
    ensures Sub(PlaceholderAnchor, PlaceholderLink(x) + post) == x + Sub(PlaceholderAnchor, post)
  {
    PlaceholderLinkMatches(x, post);
    SubReplaces(PlaceholderAnchor, PlaceholderLink(x), post, Match(|PlaceholderLink(x)|, x, x));
  }

  /** A placeholder link at the start of tag-free text is replaced by its text. */
  lemma {:induction false} UnwrapAtStart(x: string, post: string)
    requires |x| > 0 && forall i :: 0 <= i < |x| ==> x[i] != '\n' && x[i] != '<'
    requires forall i :: 0 <= i < |post| ==> post[i] != '<'
    ensures Sub(PlaceholderAnchor, PlaceholderLink(x) + post) == x + post
  {
    ReplacePlaceholderAtStart(x, post);
    ReplaceBeforeTagFree(PlaceholderAnchor, PlaceholderLink(x), x, post);
  }

  /**
   * `re.sub(r'<a href="LINK_PLACEHOLDER">(.+?)</a>', r'\1', s)` unwraps a
   * placeholder link to its text and leaves the text around it alone.
   */
  lemma {:induction false} UnwrapPlaceholderAnchor(pre: string, x: string, post: string)
    requires forall i :: 0 <= i < |pre| ==> pre[i] != '<'
    requires |x| > 0 && forall i :: 0 <= i < |x| ==> x[i] != '\n' && x[i] != '<'
    requires forall i :: 0 <= i < |post| ==> post[i] != '<'
    ensures Sub(PlaceholderAnchor, pre + PlaceholderLink(x) + post) == pre + x + post
  {
    UnwrapAtStart(x, post);
    SubNoLtPrefix(PlaceholderAnchor, pre, PlaceholderLink(x) + post);
    assert pre + PlaceholderLink(x) + post == pre + (PlaceholderLink(x) + post);
    assert pre + (x + post) == pre + x + post;
  }

  /**
   * The heading rewrite both cleaners apply: `h1`/`h2` tags become `h3`,
   * `h5`/`h6` tags become `h4` (lower case only).
   */
  function CollapseHeadings(h: string): string {
    Sub(HeadingClose('5', '6', '4'), Sub(HeadingOpen('5', '6', '4'),
      Sub(HeadingClose('1', '2', '3'), Sub(HeadingOpen('1', '2', '3'), h))))
  }

  /** Text without tags passes the heading rewrite unchanged. */
  lemma CollapseHeadingsNoLt(h: string)
    requires forall i :: 0 <= i < |h| ==> h[i] != '<'
    ensures CollapseHeadings(h) == h
  {
    NoLtSubIdentity(HeadingOpen('1', '2', '3'), h);
    NoLtSubIdentity(HeadingClose('1', '2', '3'), h);
    NoLtSubIdentity(HeadingOpen('5', '6', '4'), h);
    NoLtSubIdentity(HeadingClose('5', '6', '4'), h);
  }

  /** `re.findall(pat, s)` for a pattern with one group. */
  function FindAll(pat: Pattern, s: string): seq<string>
    decreases |s|
  {
    if |s| == 0 then []
    else match MatchAt(pat, s)
      case Some(m) => [m.group] + FindAll(pat, s[m.len..])
      case None => FindAll(pat, s[1..])
  }

  /** `re.search(pat, s).group(1)`: the group of the leftmost match. */
  function Search(pat: Pattern, s: string): Option<string>
    decreases |s|
  {
    if |s| == 0 then None
    else match MatchAt(pat, s)
      case Some(m) => Some(m.group)
      case None => Search(pat, s[1..])
  }

  /** Every text `re.findall(r'<p>([^<]+)</p>', s)` returns is non-empty and free of `<`. */
  lemma {:induction false} ParaTextsAreTagFree(s: string)
    ensures forall k :: 0 <= k < |FindAll(ParaText, s)| ==>
      |FindAll(ParaText, s)[k]| > 0 && forall i :: 0 <= i < |FindAll(ParaText, s)[k]| ==> FindAll(ParaText, s)[k][i] != '<'
    decreases |s|
  {
    if |s| > 0 {
      match MatchAt(ParaText, s)
      case Some(m) =>
        ParaTextsAreTagFree(s[m.len..]);
        assert FindAll(ParaText, s) == [m.group] + FindAll(ParaText, s[m.len..]);
      case None =>
        ParaTextsAreTagFree(s[1..]);
    }
  }

  /** The source `re.search(r'<img src="([^"]+)"', s)` captures is non-empty and free of `"`. */
  lemma {:induction false} ImgSrcIsQuoteFree(s: string)
    ensures Search(ImgSrc, s).Some? ==> |Search(ImgSrc, s).value| > 0
    ensures Search(ImgSrc, s).Some? ==> forall i :: 0 <= i < |Search(ImgSrc, s).value| ==> Search(ImgSrc, s).value[i] != '"'
    decreases |s|
  {
    if |s| > 0 && MatchAt(ImgSrc, s).None? {
      ImgSrcIsQuoteFree(s[1..]);
    }
  }

  /** `<img src="u"` followed by anything matches with the group `u`, for a non-empty `u` without quotes. */
  lemma ImgSrcAtStart(u: string, rest: string)
    requires |u| > 0 && forall i :: 0 <= i < |u| ==> u[i] != '"'
    ensures MatchImgSrc("<img src=\"" + u + "\"" + rest) == Some(Match(10 + |u| + 1, u, u))
  {
    var open := "<img src=\"";
    var s := open + u + "\"" + rest;
    assert |open| == 10;
    assert s[..|open|] == open;
    assert s[|open| + |u|] == '"';
    assert forall i :: |open| <= i < |open| + |u| ==> s[i] == u[i - |open|];
    assert FirstFrom(s, |open|, '"') == Some(|open| + |u|);
    assert s[|open|..|open| + |u|] == u;
  }

  /** ... so the search for an image source finds `u` there. */
  lemma SearchImgSrcAtStart(u: string, rest: string)
    requires |u| > 0 && forall i :: 0 <= i < |u| ==> u[i] != '"'
    ensures Search(ImgSrc, "<img src=\"" + u + "\"" + rest) == Some(u)
  {
    ImgSrcAtStart(u, rest);
  }

  /** No match of `pat` starts anywhere in `s`. */
  predicate NoMatch(pat: Pattern, s: string) {
    forall i :: 0 <= i < |s| ==> MatchAt(pat, s[i..]).None?
  }

  /** A substitution with nothing to match leaves the text unchanged. */
  lemma {:induction false} SubWithoutMatch(pat: Pattern, s: string)
    requires NoMatch(pat, s)
    ensures Sub(pat, s) == s
    decreases |s|
  {
    if |s| > 0 {
      assert MatchAt(pat, s[0..]).None?;
      assert s[0..] == s;
      assert NoMatch(pat, s[1..]) by {
        forall i | 0 <= i < |s| - 1 ensures MatchAt(pat, s[1..][i..]).None? {
          assert s[1..][i..] == s[i + 1..];
        }
      }
      SubWithoutMatch(pat, s[1..]);
      assert s == [s[0]] + s[1..];
    }
  }
}
