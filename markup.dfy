/**
 * HTML text seen as a sequence of pieces: runs of text without `<`, and tags
 * `<BODY>` whose body holds no angle bracket. On text of this shape the
 * tag-level substitutions of the two cleaners act one tag at a time: each tag
 * is removed, renamed or kept according to its body alone, and the text
 * between tags is copied. `TagRule` states that effect on a body, and
 * `SubByTags` proves that `re.sub` over the whole text is that rule applied
 * tag by tag.
 *
 * Text in which a `<` occurs inside a tag (`<<html>html>`) is not of this
 * shape; there one scan need not remove what it matches, as
 * `TelegraphClient.StructureRemovalIsOnePass` shows.
 */
module Markup {
  import opened Wrappers
  import opened Text
  import opened Patterns

  datatype Piece = Chars(text: string) | Elem(body: string)

  predicate LtFree(s: string) {
    forall i :: 0 <= i < |s| ==> s[i] != '<'
  }

  /** What may stand between `<` and the `>` that closes a tag. */
  predicate TagBody(b: string) {
    forall i :: 0 <= i < |b| ==> b[i] != '<' && b[i] != '>'
  }

  predicate WellFormed(p: Piece) {
    match p
    case Chars(t) => LtFree(t)
    case Elem(b) => TagBody(b)
  }

  predicate AllWellFormed(ps: seq<Piece>) {
    forall k :: 0 <= k < |ps| ==> WellFormed(ps[k])
  }

  /** `<BODY>` */
  function TagText(b: string): string {
    "<" + b + ">"
  }

  function PieceText(p: Piece): string {
    match p
    case Chars(t) => t
    case Elem(b) => TagText(b)
  }

  /** The text the pieces stand for. */
  function Render(ps: seq<Piece>): string
    decreases |ps|
  {
    if |ps| == 0 then "" else PieceText(ps[0]) + Render(ps[1..])
  }

  lemma Assoc(x: string, y: string, z: string)
    ensures x + (y + z) == (x + y) + z
  {
  }

  lemma RenderCons(p: Piece, ps: seq<Piece>)
    ensures Render([p] + ps) == PieceText(p) + Render(ps)
  {
    assert ([p] + ps)[1..] == ps;
  }

  // ---------------------------------------------------------------- the effect on one tag

  /** A literal without `>`: comparing it with text cannot run past the end of a tag. */
  predicate NoGt(n: string) {
    forall i :: 0 <= i < |n| ==> n[i] != '>'
  }

  /** `</?NAME[^>]*>` matches the tag: its body, after an optional `/`, starts with `NAME`. */
  predicate IsStructBody(n: string, b: string) {
    StartsWithNoCase(if |b| > 0 && b[0] == '/' then b[1..] else b, n)
  }

  /** `</NAME>` matches the tag: its body is `/NAME` in any case. */
  predicate IsCloseOf(n: string, b: string) {
    |b| == |n| + 1 && b[0] == '/' && StartsWithNoCase(b[1..], n)
  }

  /** The first name of `names` that the body starts with, followed by whitespace. */
  function AttrName(b: string, names: seq<string>): (r: Option<string>)
    ensures r.Some? ==> r.value in names && |r.value| < |b|
  {
    if |names| == 0 then None
    else if |names[0]| < |b| && StartsWithNoCase(b, names[0]) && IsSpace(b[|names[0]|]) then Some(names[0])
    else AttrName(b, names[1..])
  }

  /**
   * What `re.sub(pat, ...)` does to the tag `<b>`: `None` removes it,
   * `Some(b')` leaves `<b'>` in its place (`b` itself where nothing matches).
   * Stated for the patterns that act on single tags; the others are taken to
   * leave the tag alone, which holds for the tags `SubByTags` is given.
   */
  function TagRule(pat: Pattern, b: string): Option<string> {
    match pat
    case StructTag(n) => if IsStructBody(n, b) then None else Some(b)
    case WrapperOpen(n) => if StartsWithNoCase(b, n) then None else Some(b)
    case WrapperClose(n) => if IsCloseOf(n, b) then None else Some(b)
    case HeadingOpen(d1, d2, to) =>
      if |b| >= 2 && b[0] == 'h' && (b[1] == d1 || b[1] == d2) then Some(['h', to] + b[2..]) else Some(b)
    case HeadingClose(d1, d2, to) =>
      if b == ['/', 'h', d1] || b == ['/', 'h', d2] then Some(['/', 'h', to]) else Some(b)
    case AttrTag => AttrRule(AttrTagNames, b)
    case _ => Some(b)
  }

  /** The attribute pass keeps a tag's name, from `names`, and drops everything after it. */
  function AttrRule(names: seq<string>, b: string): Option<string> {
    match AttrName(b, names) case Some(n) => Some(b[..|n|]) case None => Some(b)
  }

  /** The text a rule leaves in place of a tag. */
  function RuleText(o: Option<string>): string {
    match o
    case None => ""
    case Some(b) => TagText(b)
  }

  /** The match of `pat` at the tag `<b>`, followed by `rest`. */
  function AtTag(pat: Pattern, b: string, rest: string): Option<Match> {
    MatchAt(pat, TagText(b) + rest)
  }

  /** The match found at a tag is the one the rule describes: none, or the whole tag with the rule's text. */
  predicate Agrees(m: Option<Match>, b: string, o: Option<string>) {
    match m
    case None => o == Some(b)
    case Some(x) => x.len == |b| + 2 && x.rep == RuleText(o)
  }

  /** At every tag of `ps`, whatever follows it, `pat` acts as its rule says. */
  ghost predicate Follows(pat: Pattern, ps: seq<Piece>) {
    forall k, rest :: 0 <= k < |ps| && ps[k].Elem? ==>
      Agrees(AtTag(pat, ps[k].body, rest), ps[k].body, TagRule(pat, ps[k].body))
  }

  /** What is left of one piece once `pat` has passed over it. */
  function Replaced(pat: Pattern, p: Piece): seq<Piece> {
    match p
    case Chars(_) => [p]
    case Elem(b) => if TagRule(pat, b).None? then [] else [Elem(TagRule(pat, b).value)]
  }

  /** The pieces after each tag has been replaced as the rule of `pat` says. */
  function Apply(pat: Pattern, ps: seq<Piece>): seq<Piece>
    decreases |ps|
  {
    if |ps| == 0 then [] else Replaced(pat, ps[0]) + Apply(pat, ps[1..])
  }

  /** The text a piece leaves once `pat` has passed over it. */
  function ReplacedText(pat: Pattern, p: Piece): string {
    match p
    case Chars(t) => t
    case Elem(b) => RuleText(TagRule(pat, b))
  }

  lemma RenderReplaced(pat: Pattern, p: Piece, qs: seq<Piece>)
    ensures Render(Replaced(pat, p) + qs) == ReplacedText(pat, p) + Render(qs)
  {
    if Replaced(pat, p) == [] {
      assert Replaced(pat, p) + qs == qs;
    } else {
      RenderCons(Replaced(pat, p)[0], qs);
    }
  }

  // ---------------------------------------------------------------- re.sub, tag by tag

  /** `f` copies every character other than `<` and scans on. */
  ghost predicate CopiesText(f: string -> string) {
    forall c: char, u: string :: c != '<' ==> f([c] + u) == [c] + f(u)
  }

  /** At every tag of `ps`, whatever follows it, `f` emits what the rule of `pat` says and scans on. */
  ghost predicate ActsByRule(f: string -> string, pat: Pattern, ps: seq<Piece>) {
    forall k, rest :: 0 <= k < |ps| && ps[k].Elem? ==>
      f(TagText(ps[k].body) + rest) == RuleText(TagRule(pat, ps[k].body)) + f(rest)
  }

  /** A left-to-right rewriter that acts on each tag by its rule rewrites well-formed text piece by piece. */
  lemma {:induction false} RewritesByTags(f: string -> string, pat: Pattern, ps: seq<Piece>, post: string)
    requires CopiesText(f) && AllWellFormed(ps) && ActsByRule(f, pat, ps)
    ensures f(Render(ps) + post) == Render(Apply(pat, ps)) + f(post)
    decreases |ps|
  {
    if |ps| == 0 {
      assert Render(ps) + post == post;
    } else {
      var p, rest := ps[0], ps[1..];
      assert AllWellFormed(rest) by {
        forall k | 0 <= k < |rest| ensures WellFormed(rest[k]) {
          assert rest[k] == ps[k + 1];
        }
      }
      assert ActsByRule(f, pat, rest) by {
        forall k, r | 0 <= k < |rest| && rest[k].Elem?
          ensures f(TagText(rest[k].body) + r) == RuleText(TagRule(pat, rest[k].body)) + f(r)
        {
          assert rest[k] == ps[k + 1];
        }
      }
      RewritesByTags(f, pat, rest, post);
      var tail := Render(rest) + post;
      Assoc(PieceText(p), Render(rest), post);
      assert f(PieceText(p) + tail) == ReplacedText(pat, p) + f(tail) by {
        assert WellFormed(ps[0]);
        if p.Chars? {
          CopiesNoLtPrefix(f, p.text, tail);
        }
      }
      RenderReplaced(pat, p, Apply(pat, rest));
      Assoc(ReplacedText(pat, p), Render(Apply(pat, rest)), f(post));
    }
  }

  /** A tag the pattern does not match is copied whole: its body holds no `<` to start a match. */
  lemma SkipTag(pat: Pattern, b: string, tail: string)
    requires LtAnchored(pat) && TagBody(b)
    requires MatchAt(pat, TagText(b) + tail).None?
    ensures Sub(pat, TagText(b) + tail) == TagText(b) + Sub(pat, tail)
  {
    var inner := b + ">";
    TagTextOpens(b, tail);
    SubCopies(pat, '<', inner + tail);
    SubNoLtPrefix(pat, inner, tail);
    TagTextOpens(b, Sub(pat, tail));
  }

  /** A tag is `<` followed by a body and `>` without `<`. */
  lemma TagTextOpens(b: string, tail: string)
    requires TagBody(b)
    ensures TagText(b) + tail == ['<'] + ((b + ">") + tail)
    ensures forall i :: 0 <= i < |b + ">"| ==> (b + ">")[i] != '<'
  {
    assert TagText(b) + tail == ['<'] + ((b + ">") + tail);
  }

  /** Where the match at a tag is the one its rule describes, `re.sub` emits the rule's text and resumes after the tag. */
  lemma SubAtTag(pat: Pattern, b: string, tail: string)
    requires LtAnchored(pat) && TagBody(b)
    requires Agrees(AtTag(pat, b, tail), b, TagRule(pat, b))
    ensures Sub(pat, TagText(b) + tail) == RuleText(TagRule(pat, b)) + Sub(pat, tail)
  {
    var m := AtTag(pat, b, tail);
    if m.Some? {
      SubReplaces(pat, TagText(b), tail, m.value);
    } else {
      SkipTag(pat, b, tail);
    }
  }

  /**
   * On well-formed text, `re.sub` with a pattern anchored at `<` rewrites tag
   * by tag: every tag becomes what its rule says, the text between tags is
   * copied, and the scan goes on into whatever follows.
   */
  lemma SubByTags(pat: Pattern, ps: seq<Piece>, post: string)
    requires LtAnchored(pat) && AllWellFormed(ps) && Follows(pat, ps)
    ensures Sub(pat, Render(ps) + post) == Render(Apply(pat, ps)) + Sub(pat, post)
  {
    var f := (s: string) => Sub(pat, s);
    forall c: char, u: string | c != '<' ensures f([c] + u) == [c] + f(u) {
      SubCopiesNoLt(pat, c, u);
    }
    forall k, rest | 0 <= k < |ps| && ps[k].Elem?
      ensures f(TagText(ps[k].body) + rest) == RuleText(TagRule(pat, ps[k].body)) + f(rest)
    {
      assert WellFormed(ps[k]);
      SubAtTag(pat, ps[k].body, rest);
    }
    RewritesByTags(f, pat, ps, post);
  }

  // ---------------------------------------------------------------- each pattern at one tag

  lemma TagTextFacts(b: string, rest: string)
    ensures |TagText(b) + rest| == |b| + 2 + |rest|
    ensures (TagText(b) + rest)[0] == '<' && (TagText(b) + rest)[|b| + 1] == '>'
    ensures forall i :: 1 <= i <= |b| ==> (TagText(b) + rest)[i] == b[i - 1]
  {
  }

  /** What follows the `j`-th character of the body. */
  lemma TagTextFrom(b: string, rest: string, j: nat)
    requires j <= |b|
    ensures (TagText(b) + rest)[j + 1..] == b[j..] + (">" + rest)
  {
    var s, t := TagText(b) + rest, b[j..] + (">" + rest);
    TagTextFacts(b, rest);
    assert |s[j + 1..]| == |t|;
    forall i | 0 <= i < |t| ensures s[j + 1..][i] == t[i] {
      if i < |b| - j {
        assert s[j + 1 + i] == b[j + i];
      } else if i > |b| - j {
        assert s[j + 1 + i] == rest[i - (|b| - j) - 1];
      }
    }
  }

  /** The first `>` at or after position `k` inside a tag is the one that closes it. */
  lemma GtClosesTag(b: string, rest: string, k: nat)
    requires TagBody(b) && 1 <= k <= |b| + 1
    ensures FirstFrom(TagText(b) + rest, k, '>') == Some(|b| + 1)
  {
    TagTextFacts(b, rest);
    var s := TagText(b) + rest;
    assert forall i :: k <= i < |b| + 1 ==> s[i] == b[i - 1];
  }

  /** Lower-casing leaves every character but an upper-case letter as it is. */
  lemma LowerOfNonLetter(c: char, d: char)
    requires !('a' <= d <= 'z') && !('A' <= d <= 'Z')
    ensures LowerChar(c) == d <==> c == d
  {
  }

  /** Comparing a literal without `>` with the text of a tag cannot reach past its `>`. */
  lemma NoCaseBeforeGt(x: string, rest: string, n: string)
    requires NoGt(n) && forall i :: 0 <= i < |x| ==> x[i] != '>'
    ensures StartsWithNoCase(x + (">" + rest), n) <==> StartsWithNoCase(x, n)
  {
    var t := x + (">" + rest);
    assert forall i :: 0 <= i < |x| ==> t[i] == x[i];
    assert t[|x|] == '>' && LowerChar('>') == '>';
    assert |x| < |n| ==> n[|x|] != '>';
  }

  lemma StructTagAt(n: string, b: string, rest: string)
    requires NoGt(n) && TagBody(b)
    ensures Agrees(AtTag(StructTag(n), b, rest), b, TagRule(StructTag(n), b))
  {
    var s := TagText(b) + rest;
    TagTextFacts(b, rest);
    var slash := |b| > 0 && b[0] == '/';
    var k := if slash then 2 else 1;
    assert s[1] == '/' <==> slash;
    var x := if slash then b[1..] else b;
    TagTextFrom(b, rest, k - 1);
    assert x == b[k - 1..];
    NoCaseBeforeGt(x, rest, n);
    if IsStructBody(n, b) {
      GtClosesTag(b, rest, k + |n|);
    }
  }

  lemma WrapperOpenAt(n: string, b: string, rest: string)
    requires NoGt(n) && TagBody(b)
    ensures Agrees(AtTag(WrapperOpen(n), b, rest), b, TagRule(WrapperOpen(n), b))
  {
    var s := TagText(b) + rest;
    TagTextFacts(b, rest);
    TagTextFrom(b, rest, 0);
    assert b[0..] == b;
    NoCaseBeforeGt(b, rest, n);
    if StartsWithNoCase(b, n) {
      GtClosesTag(b, rest, 1 + |n|);
    }
  }

  lemma WrapperCloseAt(n: string, b: string, rest: string)
    requires NoGt(n) && TagBody(b)
    ensures Agrees(AtTag(WrapperClose(n), b, rest), b, TagRule(WrapperClose(n), b))
  {
    var s := TagText(b) + rest;
    var p := "</" + n + ">";
    TagTextFacts(b, rest);
    assert |p| == |n| + 3 && p[0] == '<' && p[1] == '/' && p[|n| + 2] == '>';
    assert forall i :: 2 <= i < |n| + 2 ==> p[i] == n[i - 2];
    assert LowerChar('<') == '<' && LowerChar('/') == '/' && LowerChar('>') == '>';
    if IsCloseOf(n, b) {
      forall i | 0 <= i < |p| ensures LowerChar(s[i]) == p[i] {
        if 2 <= i < |n| + 2 {
          assert s[i] == b[1..][i - 2];
        }
      }
    }
    if StartsWithNoCase(s, p) {
      LowerOfNonLetter(s[1], '/');
      LowerOfNonLetter(s[|n| + 2], '>');
      assert forall i :: 2 <= i < |n| + 2 ==> p[i] != '>';
      assert LowerChar(s[|b| + 1]) == '>';
      assert |b| == |n| + 1;
      forall i | 0 <= i < |n| ensures LowerChar(b[1..][i]) == n[i] {
        assert b[1..][i] == s[i + 2];
      }
    }
  }

  lemma HeadingOpenAt(d1: char, d2: char, to: char, b: string, rest: string)
    requires d1 != '>' && d2 != '>' && TagBody(b)
    ensures Agrees(AtTag(HeadingOpen(d1, d2, to), b, rest), b, TagRule(HeadingOpen(d1, d2, to), b))
  {
    var s := TagText(b) + rest;
    TagTextFacts(b, rest);
    if |b| >= 2 && b[0] == 'h' && (b[1] == d1 || b[1] == d2) {
      GtClosesTag(b, rest, 3);
      assert s[3..|b| + 1] == b[2..];
      assert "<h" + [to] + b[2..] + ">" == TagText(['h', to] + b[2..]);
    }
  }

  lemma HeadingCloseAt(d1: char, d2: char, to: char, b: string, rest: string)
    requires d1 != '>' && d2 != '>' && TagBody(b)
    ensures Agrees(AtTag(HeadingClose(d1, d2, to), b, rest), b, TagRule(HeadingClose(d1, d2, to), b))
  {
    var s := TagText(b) + rest;
    TagTextFacts(b, rest);
    if MatchHeadingClose(d1, d2, to, s).Some? {
      assert s[..3][1] == '/' && s[..3][2] == 'h';
      assert s[4] == '>' && s[3] != '>';
      assert |b| == 3;
      assert b == [s[1], s[2], s[3]];
    }
    if b == ['/', 'h', d1] || b == ['/', 'h', d2] {
      assert s[..3] == "</h";
    }
    assert "</h" + [to] + ">" == TagText(['/', 'h', to]);
  }

  /** The alternatives of the attribute pattern, tried at a tag, are tried on its body. */
  lemma {:induction false} AttrAlternativeAtTag(b: string, rest: string, names: seq<string>)
    requires TagBody(b) && forall i :: 0 <= i < |names| ==> NoGt(names[i])
    ensures AttrAlternative(TagText(b) + rest, names) == AttrName(b, names)
    decreases |names|
  {
    if |names| > 0 {
      var s, m := TagText(b) + rest, names[0];
      TagTextFacts(b, rest);
      TagTextFrom(b, rest, 0);
      assert b[0..] == b;
      assert NoGt(m);
      NoCaseBeforeGt(b, rest, m);
      assert |m| < |b| ==> s[1 + |m|] == b[|m|];
      assert |m| == |b| ==> s[1 + |m|] == '>';
      AttrAlternativeAtTag(b, rest, names[1..]);
    }
  }

  lemma AttrTagNamesNoGt()
    ensures forall i :: 0 <= i < |AttrTagNames| ==> NoGt(AttrTagNames[i])
  {
  }

  lemma AttrTagAt(b: string, rest: string)
    requires TagBody(b)
    ensures Agrees(AtTag(AttrTag, b, rest), b, TagRule(AttrTag, b))
  {
    AttrTagNamesNoGt();
    AttrNamesAt(b, rest, AttrTagNames);
  }

  /** With any list of names without `>`, the attribute match at a tag is the one its rule describes. */
  lemma AttrNamesAt(b: string, rest: string, names: seq<string>)
    requires TagBody(b) && forall i :: 0 <= i < |names| ==> NoGt(names[i])
    ensures Agrees(MatchAttrTag(names, TagText(b) + rest), b, AttrRule(names, b))
  {
    var s := TagText(b) + rest;
    TagTextFacts(b, rest);
    AttrAlternativeAtTag(b, rest, names);
    match AttrName(b, names)
    case None =>
    case Some(a) =>
      GtClosesTag(b, rest, 1 + |a|);
      assert s[1..1 + |a|] == b[..|a|];
  }

  /** The patterns that act on single tags, with literals that stop at a tag's `>`. */
  predicate Local(pat: Pattern) {
    match pat
    case StructTag(n) => NoGt(n)
    case WrapperOpen(n) => NoGt(n)
    case WrapperClose(n) => NoGt(n)
    case HeadingOpen(d1, d2, to) => d1 != '>' && d2 != '>' && to != '<' && to != '>'
    case HeadingClose(d1, d2, to) => d1 != '>' && d2 != '>' && to != '<' && to != '>'
    case AttrTag => true
    case _ => false
  }

  /** Each single-tag pattern acts on a tag as its rule says, whatever follows the tag. */
  lemma LocalAt(pat: Pattern, b: string, rest: string)
    requires Local(pat) && TagBody(b)
    ensures Agrees(AtTag(pat, b, rest), b, TagRule(pat, b))
  {
    match pat
    case StructTag(n) => StructTagAt(n, b, rest);
    case WrapperOpen(n) => WrapperOpenAt(n, b, rest);
    case WrapperClose(n) => WrapperCloseAt(n, b, rest);
    case HeadingOpen(d1, d2, to) => HeadingOpenAt(d1, d2, to, b, rest);
    case HeadingClose(d1, d2, to) => HeadingCloseAt(d1, d2, to, b, rest);
    case AttrTag => AttrTagAt(b, rest);
  }

  lemma FollowsLocal(pat: Pattern, ps: seq<Piece>)
    requires Local(pat) && AllWellFormed(ps)
    ensures Follows(pat, ps)
  {
    forall k, rest | 0 <= k < |ps| && ps[k].Elem?
      ensures Agrees(AtTag(pat, ps[k].body, rest), ps[k].body, TagRule(pat, ps[k].body))
    {
      assert WellFormed(ps[k]);
      LocalAt(pat, ps[k].body, rest);
    }
  }

  // ---------------------------------------------------------------- well-formedness kept

  lemma AllWellFormedCons(p: Piece, qs: seq<Piece>)
    ensures AllWellFormed([p] + qs) <==> WellFormed(p) && AllWellFormed(qs)
  {
    var all := [p] + qs;
    if WellFormed(p) && AllWellFormed(qs) {
      forall k | 0 <= k < |all| ensures WellFormed(all[k]) {
        if k > 0 {
          assert all[k] == qs[k - 1];
        }
      }
    }
    if AllWellFormed(all) {
      assert WellFormed(all[0]);
      forall k | 0 <= k < |qs| ensures WellFormed(qs[k]) {
        assert qs[k] == all[k + 1];
      }
    }
  }

  lemma ApplyCons(pat: Pattern, p: Piece, qs: seq<Piece>)
    ensures Apply(pat, [p] + qs) == Replaced(pat, p) + Apply(pat, qs)
  {
    assert ([p] + qs)[0] == p && ([p] + qs)[1..] == qs;
  }

  /** A single-tag pattern leaves a tag body where it leaves a tag. */
  lemma RuleKeepsBody(pat: Pattern, b: string)
    requires Local(pat) && TagBody(b) && TagRule(pat, b).Some?
    ensures TagBody(TagRule(pat, b).value)
  {
  }

  lemma {:induction false} ApplyWellFormed(pat: Pattern, ps: seq<Piece>)
    requires Local(pat) && AllWellFormed(ps)
    ensures AllWellFormed(Apply(pat, ps))
    decreases |ps|
  {
    if |ps| > 0 {
      var p, rest := ps[0], ps[1..];
      AllWellFormedCons(p, rest);
      assert ps == [p] + rest;
      ApplyWellFormed(pat, rest);
      if p.Elem? && TagRule(pat, p.body).Some? {
        RuleKeepsBody(pat, p.body);
        AllWellFormedCons(Replaced(pat, p)[0], Apply(pat, rest));
      } else if p.Chars? {
        AllWellFormedCons(p, Apply(pat, rest));
      } else {
        assert Replaced(pat, p) + Apply(pat, rest) == Apply(pat, rest);
      }
    }
  }

  // ---------------------------------------------------------------- passes that remove tags

  /** Whether one of `pats` removes the tag `<b>`. */
  predicate Removed(pats: seq<Pattern>, b: string) {
    exists k :: 0 <= k < |pats| && TagRule(pats[k], b).None?
  }

  /** The pieces of `ps` but the tags one of `pats` removes, in their order. */
  function Kept(ps: seq<Piece>, pats: seq<Pattern>): seq<Piece>
    decreases |ps|
  {
    if |ps| == 0 then []
    else (if ps[0].Elem? && Removed(pats, ps[0].body) then [] else [ps[0]]) + Kept(ps[1..], pats)
  }

  /** The pass that removes a removed tag. */
  lemma RemovedBy(pats: seq<Pattern>, b: string) returns (k: nat)
    requires Removed(pats, b)
    ensures k < |pats| && TagRule(pats[k], b).None?
  {
    k :| 0 <= k < |pats| && TagRule(pats[k], b).None?;
  }

  /** The patterns whose rule removes a tag or leaves it as it is. */
  predicate RemovesOnly(pat: Pattern) {
    pat.StructTag? || pat.WrapperOpen? || pat.WrapperClose?
  }

  lemma KeptCons(p: Piece, qs: seq<Piece>, pats: seq<Pattern>)
    ensures Kept([p] + qs, pats) == (if p.Elem? && Removed(pats, p.body) then [] else [p]) + Kept(qs, pats)
  {
    assert ([p] + qs)[0] == p && ([p] + qs)[1..] == qs;
  }

  lemma RemovedSnoc(pats: seq<Pattern>, pat: Pattern, b: string)
    ensures Removed(pats + [pat], b) <==> Removed(pats, b) || TagRule(pat, b).None?
  {
    var all := pats + [pat];
    assert all[|pats|] == pat;
    assert forall k :: 0 <= k < |pats| ==> all[k] == pats[k];
  }

  lemma {:induction false} KeptNothing(ps: seq<Piece>)
    ensures Kept(ps, []) == ps
    decreases |ps|
  {
    if |ps| > 0 {
      KeptNothing(ps[1..]);
      assert [ps[0]] + ps[1..] == ps;
    }
  }

  lemma {:induction false} KeptWellFormed(ps: seq<Piece>, pats: seq<Pattern>)
    requires AllWellFormed(ps)
    ensures AllWellFormed(Kept(ps, pats))
    decreases |ps|
  {
    if |ps| > 0 {
      var p, rest := ps[0], ps[1..];
      AllWellFormedCons(p, rest);
      assert ps == [p] + rest;
      KeptWellFormed(rest, pats);
      if p.Elem? && Removed(pats, p.body) {
        assert [] + Kept(rest, pats) == Kept(rest, pats);
      } else {
        AllWellFormedCons(p, Kept(rest, pats));
      }
    }
  }

  /** A removing pass over the kept pieces keeps what it and the earlier passes do not remove. */
  lemma {:induction false} ApplyKept(pat: Pattern, ps: seq<Piece>, pats: seq<Pattern>)
    requires RemovesOnly(pat)
    ensures Apply(pat, Kept(ps, pats)) == Kept(ps, pats + [pat])
    decreases |ps|
  {
    if |ps| > 0 {
      var p, rest := ps[0], ps[1..];
      ApplyKept(pat, rest, pats);
      if p.Elem? {
        RemovedSnoc(pats, pat, p.body);
      }
      if p.Elem? && Removed(pats, p.body) {
        assert [] + Kept(rest, pats) == Kept(rest, pats);
        assert [] + Kept(rest, pats + [pat]) == Kept(rest, pats + [pat]);
      } else {
        ApplyCons(pat, p, Kept(rest, pats));
        if p.Elem? && TagRule(pat, p.body).None? {
          assert [] + Kept(rest, pats + [pat]) == Kept(rest, pats + [pat]);
        }
      }
    }
  }

  /** The kept pieces come from `ps`, and none of them is a removed tag. */
  lemma {:induction false} KeptFrom(ps: seq<Piece>, pats: seq<Pattern>)
    ensures forall p :: p in Kept(ps, pats) ==> p in ps && !(p.Elem? && Removed(pats, p.body))
    decreases |ps|
  {
    if |ps| > 0 {
      KeptFrom(ps[1..], pats);
      assert forall p :: p in ps[1..] ==> p in ps;
    }
  }

  /** Removing again what has been removed changes nothing. */
  lemma {:induction false} KeptTwice(ps: seq<Piece>, pats: seq<Pattern>)
    ensures Kept(Kept(ps, pats), pats) == Kept(ps, pats)
    decreases |ps|
  {
    if |ps| > 0 {
      var p, rest := ps[0], ps[1..];
      KeptTwice(rest, pats);
      if p.Elem? && Removed(pats, p.body) {
        assert [] + Kept(rest, pats) == Kept(rest, pats);
      } else {
        KeptCons(p, Kept(rest, pats), pats);
      }
    }
  }

  /** `re.sub` with a removing single-tag pattern, over text made of the kept pieces. */
  lemma RemovalPass(pat: Pattern, ps: seq<Piece>, pats: seq<Pattern>)
    requires RemovesOnly(pat) && Local(pat) && AllWellFormed(ps)
    ensures Sub(pat, Render(Kept(ps, pats))) == Render(Kept(ps, pats + [pat]))
  {
    var qs := Kept(ps, pats);
    KeptWellFormed(ps, pats);
    FollowsLocal(pat, qs);
    SubByTags(pat, qs, "");
    assert Render(qs) + "" == Render(qs);
    ApplyKept(pat, ps, pats);
  }

  // ---------------------------------------------------------------- the heading passes

  /**
   * What the heading rewrite makes of a tag body: `h1`/`h2` openings become
   * `h3`, `h5`/`h6` openings become `h4`, attributes kept; the closing tags
   * `/h1`, `/h2` become `/h3` and `/h5`, `/h6` become `/h4`. Lower case only.
   */
  function HeadingBody(b: string): string {
    if |b| >= 2 && b[0] == 'h' && (b[1] == '1' || b[1] == '2') then ['h', '3'] + b[2..]
    else if |b| >= 2 && b[0] == 'h' && (b[1] == '5' || b[1] == '6') then ['h', '4'] + b[2..]
    else if b == "/h1" || b == "/h2" then "/h3"
    else if b == "/h5" || b == "/h6" then "/h4"
    else b
  }

  /** A tag the heading rewrite would still change: an `h1`, `h2`, `h5` or `h6` tag, opening or closing. */
  predicate LowHeading(b: string) {
    (|b| >= 2 && b[0] == 'h' && b[1] in "1256") || b in ["/h1", "/h2", "/h5", "/h6"]
  }

  function RetitlePiece(p: Piece): Piece {
    match p
    case Chars(_) => p
    case Elem(b) => Elem(HeadingBody(b))
  }

  /** The pieces with every heading tag renamed. */
  function Retitle(ps: seq<Piece>): (r: seq<Piece>)
    ensures |r| == |ps|
    decreases |ps|
  {
    if |ps| == 0 then [] else [RetitlePiece(ps[0])] + Retitle(ps[1..])
  }

  /** A heading pass never removes a tag. */
  lemma HeadingPassRenames(pat: Pattern, p: Piece)
    requires pat.HeadingOpen? || pat.HeadingClose?
    ensures Replaced(pat, p) == [RenamedBy(pat, p)]
  {
  }

  /** The body a renaming pattern leaves in place of `b`. */
  function RenameBody(pat: Pattern, b: string): string {
    match TagRule(pat, b)
    case Some(c) => c
    case None => b
  }

  /** The piece a renaming pattern leaves in place of `p`. */
  function RenamedBy(pat: Pattern, p: Piece): Piece {
    match p
    case Chars(_) => p
    case Elem(b) => Elem(RenameBody(pat, b))
  }

  /** The four passes, in their order, rename one tag body as `HeadingBody` says. */
  lemma HeadingChain(b: string)
    ensures RenameBody(HeadingClose('5', '6', '4'), RenameBody(HeadingOpen('5', '6', '4'),
      RenameBody(HeadingClose('1', '2', '3'), RenameBody(HeadingOpen('1', '2', '3'), b)))) == HeadingBody(b)
  {
    var o1, c1, o2, c2 := HeadingOpen('1', '2', '3'), HeadingClose('1', '2', '3'), HeadingOpen('5', '6', '4'), HeadingClose('5', '6', '4');
    if |b| >= 2 && b[0] == 'h' && (b[1] == '1' || b[1] == '2') {
      var x := ['h', '3'] + b[2..];
      assert RenameBody(o1, b) == x;
      assert x[0] == 'h' && x[1] == '3';
      assert RenameBody(c1, x) == x && RenameBody(o2, x) == x && RenameBody(c2, x) == x;
    } else if |b| >= 2 && b[0] == 'h' && (b[1] == '5' || b[1] == '6') {
      var y := ['h', '4'] + b[2..];
      assert RenameBody(o1, b) == b && RenameBody(c1, b) == b;
      assert RenameBody(o2, b) == y;
      assert y[0] == 'h' && y[1] == '4';
      assert RenameBody(c2, y) == y;
    } else if b == "/h1" || b == "/h2" {
      assert RenameBody(o1, b) == b;
      assert RenameBody(c1, b) == "/h3";
      assert RenameBody(o2, "/h3") == "/h3" && RenameBody(c2, "/h3") == "/h3";
    } else if b == "/h5" || b == "/h6" {
      assert RenameBody(o1, b) == b && RenameBody(c1, b) == b && RenameBody(o2, b) == b;
      assert RenameBody(c2, b) == "/h4";
    } else {
      assert RenameBody(o1, b) == b && RenameBody(c1, b) == b;
      assert RenameBody(o2, b) == b && RenameBody(c2, b) == b;
    }
  }

  lemma HeadingPassesCompose(p: Piece)
    ensures RenamedBy(HeadingClose('5', '6', '4'), RenamedBy(HeadingOpen('5', '6', '4'),
      RenamedBy(HeadingClose('1', '2', '3'), RenamedBy(HeadingOpen('1', '2', '3'), p)))) == RetitlePiece(p)
  {
    if p.Elem? {
      HeadingChain(p.body);
    }
  }

  /** The four heading passes over the pieces rename every heading tag. */
  lemma {:induction false} HeadingPassesRetitle(ps: seq<Piece>)
    ensures Apply(HeadingClose('5', '6', '4'), Apply(HeadingOpen('5', '6', '4'),
      Apply(HeadingClose('1', '2', '3'), Apply(HeadingOpen('1', '2', '3'), ps)))) == Retitle(ps)
    decreases |ps|
  {
    if |ps| > 0 {
      var p, rest := ps[0], ps[1..];
      var o1, c1, o2, c2 := HeadingOpen('1', '2', '3'), HeadingClose('1', '2', '3'), HeadingOpen('5', '6', '4'), HeadingClose('5', '6', '4');
      HeadingPassesRetitle(rest);
      HeadingPassesCompose(p);
      var p1 := RenamedBy(o1, p);
      HeadingPassRenames(o1, p);
      var p2 := RenamedBy(c1, p1);
      HeadingPassRenames(c1, p1);
      var p3 := RenamedBy(o2, p2);
      HeadingPassRenames(o2, p2);
      HeadingPassRenames(c2, p3);
      assert Apply(o1, ps) == [p1] + Apply(o1, rest);
      ApplyCons(c1, p1, Apply(o1, rest));
      ApplyCons(o2, p2, Apply(c1, Apply(o1, rest)));
      ApplyCons(c2, p3, Apply(o2, Apply(c1, Apply(o1, rest))));
    }
  }

  /** `CollapseHeadings` over well-formed text renames every heading tag and changes nothing else. */
  lemma CollapseHeadingsByTags(ps: seq<Piece>)
    requires AllWellFormed(ps)
    ensures CollapseHeadings(Render(ps)) == Render(Retitle(ps))
  {
    var o1, c1, o2, c2 := HeadingOpen('1', '2', '3'), HeadingClose('1', '2', '3'), HeadingOpen('5', '6', '4'), HeadingClose('5', '6', '4');
    var q1 := Apply(o1, ps);
    var q2 := Apply(c1, q1);
    var q3 := Apply(o2, q2);
    RenamePass(o1, ps);
    ApplyWellFormed(o1, ps);
    RenamePass(c1, q1);
    ApplyWellFormed(c1, q1);
    RenamePass(o2, q2);
    ApplyWellFormed(o2, q2);
    RenamePass(c2, q3);
    HeadingPassesRetitle(ps);
  }

  lemma RenamePass(pat: Pattern, ps: seq<Piece>)
    requires Local(pat) && AllWellFormed(ps)
    ensures Sub(pat, Render(ps)) == Render(Apply(pat, ps))
  {
    FollowsLocal(pat, ps);
    SubByTags(pat, ps, "");
    assert Render(ps) + "" == Render(ps);
  }

  lemma {:induction false} RetitleWellFormed(ps: seq<Piece>)
    requires AllWellFormed(ps)
    ensures AllWellFormed(Retitle(ps))
    decreases |ps|
  {
    if |ps| > 0 {
      var p, rest := ps[0], ps[1..];
      AllWellFormedCons(p, rest);
      assert ps == [p] + rest;
      RetitleWellFormed(rest);
      if p.Elem? {
        HeadingBodyTagBody(p.body);
      }
      AllWellFormedCons(RetitlePiece(p), Retitle(rest));
    }
  }

  lemma HeadingBodyTagBody(b: string)
    requires TagBody(b)
    ensures TagBody(HeadingBody(b))
  {
    if |b| >= 2 {
      assert forall i :: 2 <= i < |b| ==> (['h', '3'] + b[2..])[i] == b[i];
      assert forall i :: 2 <= i < |b| ==> (['h', '4'] + b[2..])[i] == b[i];
    }
  }

  /** After the rename no `h1`, `h2`, `h5` or `h6` tag is left, so a second rewrite changes nothing. */
  lemma HeadingBodySettled(b: string)
    ensures !LowHeading(HeadingBody(b))
    ensures HeadingBody(b) == b <==> !LowHeading(b)
  {
    if |b| >= 2 && b[0] == 'h' {
      assert (['h', '3'] + b[2..])[..2] == ['h', '3'];
      assert (['h', '4'] + b[2..])[..2] == ['h', '4'];
    }
  }

  lemma {:induction false} RetitleTwice(ps: seq<Piece>)
    ensures Retitle(Retitle(ps)) == Retitle(ps)
    ensures forall k :: 0 <= k < |ps| && Retitle(ps)[k].Elem? ==> !LowHeading(Retitle(ps)[k].body)
    decreases |ps|
  {
    if |ps| > 0 {
      var p, rest := ps[0], ps[1..];
      RetitleTwice(rest);
      if p.Elem? {
        HeadingBodySettled(p.body);
        HeadingBodySettled(HeadingBody(p.body));
      }
      var r := Retitle(ps);
      assert r[0] == RetitlePiece(p) && r[1..] == Retitle(rest);
      assert forall k :: 0 < k < |ps| ==> r[k] == Retitle(rest)[k - 1];
      assert Retitle(r) == [RetitlePiece(r[0])] + Retitle(r[1..]);
    }
  }

  /**
   * The heading rewrite leaves no `h1`, `h2`, `h5` or `h6` tag behind, and
   * applying it a second time changes nothing.
   */
  lemma CollapseHeadingsSettles(ps: seq<Piece>)
    requires AllWellFormed(ps)
    ensures forall k :: 0 <= k < |ps| && Retitle(ps)[k].Elem? ==> !LowHeading(Retitle(ps)[k].body)
    ensures CollapseHeadings(CollapseHeadings(Render(ps))) == CollapseHeadings(Render(ps))
  {
    CollapseHeadingsByTags(ps);
    RetitleWellFormed(ps);
    CollapseHeadingsByTags(Retitle(ps));
    RetitleTwice(ps);
  }

  // ---------------------------------------------------------------- paragraphs

  predicate AllSpace(w: string) {
    forall i :: 0 <= i < |w| ==> IsSpace(w[i])
  }

  /** The whitespace run that starts at `k` covers `w` and stops at the character after it. */
  lemma SpaceRunOver(s: string, k: nat, w: string)
    requires k + |w| < |s| && s[k..k + |w|] == w && AllSpace(w) && !IsSpace(s[k + |w|])
    ensures SpaceRunEnd(s, k) == k + |w|
  {
    assert forall i :: k <= i < k + |w| ==> s[i] == w[i - k];
  }

  /** Where a match that ends before `post` follows text without tags, the text is copied and the match replaced. */
  lemma ReplaceAfterTagFree(pat: Pattern, pre: string, s: string, post: string, m: Match)
    requires LtAnchored(pat) && LtFree(pre) && MatchAt(pat, s) == Some(m) && s[m.len..] == post
    ensures Sub(pat, pre + s) == pre + (m.rep + Sub(pat, post))
  {
    SubNoLtPrefix(pat, pre, s);
  }

  /** A tag the pattern does not match, after text without tags, is copied with that text. */
  lemma SkipTagAfterTagFree(pat: Pattern, pre: string, b: string, t: string, tail: string)
    requires LtAnchored(pat) && LtFree(pre) && TagBody(b) && t == TagText(b)
    requires MatchAt(pat, t + tail).None?
    ensures Sub(pat, pre + (t + tail)) == pre + (t + Sub(pat, tail))
  {
    SubNoLtPrefix(pat, pre, t + tail);
    SkipTag(pat, b, tail);
  }

  /**
   * A paragraph `<p>x</p>` whose two tags the pattern leaves as they are
   * passes a substitution unchanged, together with the text before it.
   */
  lemma ParaPassesThrough(pat: Pattern, pre: string, x: string, post: string)
    requires LtAnchored(pat) && LtFree(pre) && LtFree(x)
    requires Agrees(MatchAt(pat, "<p>" + (x + ("</p>" + post))), "p", Some("p"))
    requires Agrees(MatchAt(pat, "</p>" + post), "/p", Some("/p"))
    ensures Sub(pat, pre + ("<p>" + (x + ("</p>" + post)))) == pre + ("<p>" + (x + ("</p>" + Sub(pat, post))))
  {
    ParaTags();
    var close := "</p>" + post;
    var t := x + close;
    SubNoLtPrefix(pat, pre, "<p>" + t);
    KeepTagAt(pat, "p", t);
    SubNoLtPrefix(pat, x, close);
    KeepTagAt(pat, "/p", post);
  }

  /** A tag that a pattern leaves as it is, whether by matching it or not, is copied. */
  lemma KeepTagAt(pat: Pattern, b: string, tail: string)
    requires LtAnchored(pat) && TagBody(b)
    requires Agrees(AtTag(pat, b, tail), b, Some(b))
    ensures Sub(pat, TagText(b) + tail) == TagText(b) + Sub(pat, tail)
  {
    var m := AtTag(pat, b, tail);
    if m.Some? {
      SubReplaces(pat, TagText(b), tail, m.value);
    } else {
      SkipTag(pat, b, tail);
    }
  }

  /** No alternative of `names`, which all begin with a letter, names a tag body that begins with something else. */
  lemma {:induction false} AttrNameNotLetter(b: string, names: seq<string>)
    requires |b| > 0 && !('a' <= b[0] <= 'z') && !('A' <= b[0] <= 'Z')
    requires forall i :: 0 <= i < |names| ==> |names[i]| > 0 && 'a' <= names[i][0] <= 'z'
    ensures AttrName(b, names).None?
    decreases |names|
  {
    if |names| > 0 {
      LowerOfNonLetter(b[0], b[0]);
      assert LowerChar(b[0]) != names[0][0];
      AttrNameNotLetter(b, names[1..]);
    }
  }

  /** No alternative of `names`, none of them empty, names a tag body of one character. */
  lemma {:induction false} AttrNameShort(b: string, names: seq<string>)
    requires |b| <= 1
    requires forall i :: 0 <= i < |names| ==> |names[i]| > 0
    ensures AttrName(b, names).None?
    decreases |names|
  {
    if |names| > 0 {
      AttrNameShort(b, names[1..]);
    }
  }

  lemma AttrTagNamesStartLower()
    ensures forall i :: 0 <= i < |AttrTagNames| ==> |AttrTagNames[i]| > 0 && 'a' <= AttrTagNames[i][0] <= 'z'
  {
  }

  /** `<(p|h3|...)\s+[^>]*>` leaves a tag whose body is a single character as it is. */
  lemma AttrKeepsShortTag(b: string, rest: string)
    requires TagBody(b) && |b| <= 1
    ensures Agrees(AtTag(AttrTag, b, rest), b, Some(b))
  {
    AttrTagAt(b, rest);
    AttrTagNamesStartLower();
    AttrNameShort(b, AttrTagNames);
  }

  /** `<(p|h3|...)\s+[^>]*>` leaves the opening paragraph tag `<p>` as it is. */
  lemma AttrKeepsOpenPara(rest: string)
    ensures Agrees(MatchAt(AttrTag, "<p>" + rest), "p", Some("p"))
  {
    ParaTags();
    AttrKeepsShortTag("p", rest);
  }

  /** `<(p|h3|...)\s+[^>]*>` leaves a tag whose body begins with something other than a letter as it is. */
  lemma AttrKeepsNonLetterTag(b: string, rest: string)
    requires TagBody(b) && |b| > 0 && !('a' <= b[0] <= 'z') && !('A' <= b[0] <= 'Z')
    ensures Agrees(AtTag(AttrTag, b, rest), b, Some(b))
  {
    AttrTagAt(b, rest);
    AttrTagNamesStartLower();
    AttrNameNotLetter(b, AttrTagNames);
  }

  /** `<(p|h3|...)\s+[^>]*>` leaves the closing paragraph tag `</p>` as it is. */
  lemma AttrKeepsClosePara(rest: string)
    ensures Agrees(MatchAt(AttrTag, "</p>" + rest), "/p", Some("/p"))
  {
    ParaTags();
    AttrKeepsNonLetterTag("/p", rest);
  }

  /** `<img[^>]*src=...>` matches at neither paragraph tag. */
  lemma ImgSkipsParaTags(rest: string)
    ensures MatchAt(ImgTag, "<p>" + rest).None? && MatchAt(ImgTag, "</p>" + rest).None?
  {
    assert ("<p>" + rest)[1] == 'p' && ("</p>" + rest)[1] == '/';
  }

  lemma ParaTags()
    ensures TagBody("p") && TagText("p") == "<p>"
    ensures TagBody("/p") && TagText("/p") == "</p>"
  {
  }

  /** Every character of `p` is its own lower case. */
  predicate Lowered(p: string) {
    forall i :: 0 <= i < |p| ==> LowerChar(p[i]) == p[i]
  }

  lemma LiteralsLowered()
    ensures Lowered("<p>") && Lowered("</p>") && Lowered("&nbsp;")
  {
    assert LowerChar('<') == '<' && LowerChar('p') == 'p' && LowerChar('>') == '>' && LowerChar('/') == '/';
    assert LowerChar('&') == '&' && LowerChar('n') == 'n' && LowerChar('b') == 'b' && LowerChar('s') == 's' && LowerChar(';') == ';';
  }

  /** Text that spells a lower-case literal at `k` starts with it, ignoring case. */
  lemma NoCaseAt(s: string, k: nat, p: string)
    requires Lowered(p) && k + |p| <= |s| && s[k..k + |p|] == p
    ensures StartsWithNoCase(s[k..], p)
  {
    assert forall i :: 0 <= i < |p| ==> s[k..][i] == s[k..k + |p|][i];
  }

  /** `<p>\\s*</p>` matches an opening and a closing paragraph tag with only whitespace between. */
  lemma EmptyParaMatch(ic: bool, w: string, post: string)
    requires AllSpace(w)
    ensures MatchAt(EmptyPara(ic), "<p>" + (w + ("</p>" + post))) == Some(Match(|w| + 7, "", ""))
    ensures ("<p>" + (w + ("</p>" + post)))[|w| + 7..] == post
  {
    var s := "<p>" + (w + ("</p>" + post));
    var e := 3 + |w|;
    EmptyParaLayout(w, post, s);
    LiteralsLowered();
    NoCaseAt(s, 0, "<p>");
    SpaceRunOver(s, 3, w);
    NoCaseAt(s, e, "</p>");
    assert s[0..] == s;
    EmptyParaMatchAt(ic, s, e);
  }

  lemma EmptyParaLayout(w: string, post: string, s: string)
    requires s == "<p>" + (w + ("</p>" + post))
    ensures |s| == |w| + 7 + |post|
    ensures s[..3] == "<p>" && s[3..3 + |w|] == w && s[3 + |w|..3 + |w| + 4] == "</p>"
    ensures s[3 + |w|..][..4] == "</p>" && s[|w| + 7..] == post && s[3 + |w|] == '<'
  {
    assert s == "<p>" + (w + ("</p>" + post));
  }

  lemma {:induction false} EmptyParaMatchAt(ic: bool, s: string, e: nat)
    requires StartsWith(s, "<p>") && StartsWithNoCase(s, "<p>") && SpaceRunEnd(s, 3) == e
    requires e <= |s| && StartsWith(s[e..], "</p>") && StartsWithNoCase(s[e..], "</p>")
    ensures MatchAt(EmptyPara(ic), s) == Some(Match(e + 4, "", ""))
  {
  }

  /** An empty paragraph after text without tags is removed, and the scan goes on after it. */
  lemma EmptyParaDropped(ic: bool, pre: string, w: string, post: string)
    requires LtFree(pre) && AllSpace(w)
    ensures Sub(EmptyPara(ic), pre + ("<p>" + (w + ("</p>" + post)))) == pre + Sub(EmptyPara(ic), post)
  {
    EmptyParaMatch(ic, w, post);
    ReplaceAfterTagFree(EmptyPara(ic), pre, "<p>" + (w + ("</p>" + post)), post, Match(|w| + 7, "", ""));
    assert "" + Sub(EmptyPara(ic), post) == Sub(EmptyPara(ic), post);
  }

  /** `<p>\\s*</p>` does not match at a paragraph whose text has a character other than whitespace. */
  lemma TextParaNoMatch(ic: bool, x: string, post: string)
    requires LtFree(x) && exists i :: 0 <= i < |x| && !IsSpace(x[i])
    ensures MatchAt(EmptyPara(ic), "<p>" + (x + ("</p>" + post))).None?
  {
    var s := "<p>" + (x + ("</p>" + post));
    assert forall i :: 3 <= i < 3 + |x| ==> s[i] == x[i - 3];
    var j :| 0 <= j < |x| && !IsSpace(x[j]);
    assert !IsSpace(s[3 + j]);
    var e := SpaceRunEnd(s, 3);
    assert e <= 3 + j;
    assert s[e] != '<';
    assert LowerChar(s[e]) != '<';
  }

  /** Neither paragraph pattern matches at a closing paragraph tag. */
  lemma CloseParaNoMatch(ic: bool, post: string)
    ensures MatchAt(EmptyPara(ic), "</p>" + post).None?
    ensures MatchAt(NbspPara, "</p>" + post).None?
  {
    var s := "</p>" + post;
    assert s[1] == '/' && LowerChar('/') == '/';
  }

  /** A paragraph whose text has a character other than whitespace passes the empty-paragraph rewrite unchanged. */
  lemma TextParaKept(ic: bool, pre: string, x: string, post: string)
    requires LtFree(pre) && LtFree(x) && exists i :: 0 <= i < |x| && !IsSpace(x[i])
    ensures Sub(EmptyPara(ic), pre + ("<p>" + (x + ("</p>" + post)))) ==
      pre + ("<p>" + (x + ("</p>" + Sub(EmptyPara(ic), post))))
  {
    TextParaNoMatch(ic, x, post);
    CloseParaNoMatch(ic, post);
    ParaPassesThrough(EmptyPara(ic), pre, x, post);
  }

  /** `<p>\\s*&nbsp;\\s*</p>` matches a paragraph holding one `&nbsp;` between whitespace. */
  lemma NbspParaMatch(w1: string, w2: string, x: string, post: string)
    requires AllSpace(w1) && AllSpace(w2) && x == w1 + ("&nbsp;" + w2)
    ensures MatchAt(NbspPara, "<p>" + (x + ("</p>" + post))) == Some(Match(|x| + 7, "", ""))
    ensures ("<p>" + (x + ("</p>" + post)))[|x| + 7..] == post
  {
    var s := "<p>" + (x + ("</p>" + post));
    var e1 := 3 + |w1|;
    var e2 := e1 + 6 + |w2|;
    NbspLayout(w1, w2, x, post, s);
    LiteralsLowered();
    NoCaseAt(s, 0, "<p>");
    SpaceRunOver(s, 3, w1);
    NoCaseAt(s, e1, "&nbsp;");
    SpaceRunOver(s, e1 + 6, w2);
    NoCaseAt(s, e2, "</p>");
    NbspMatchAt(s, e1, e2);
  }

  lemma NbspLayout(w1: string, w2: string, x: string, post: string, s: string)
    requires x == w1 + ("&nbsp;" + w2) && s == "<p>" + (x + ("</p>" + post))
    ensures |x| == |w1| + 6 + |w2| && |s| == |x| + 7 + |post|
    ensures s[..3] == "<p>" && s[3..3 + |w1|] == w1 && s[3 + |w1|..9 + |w1|] == "&nbsp;"
    ensures s[9 + |w1|..|x| + 3] == w2 && s[|x| + 3..|x| + 7] == "</p>" && s[|x| + 7..] == post
    ensures s[3 + |w1|] == '&' && s[|x| + 3] == '<'
  {
    assert s == "<p>" + (w1 + ("&nbsp;" + (w2 + ("</p>" + post))));
  }

  lemma NbspMatchAt(s: string, e1: nat, e2: nat)
    requires StartsWithNoCase(s, "<p>") && 3 <= e1 <= |s| && SpaceRunEnd(s, 3) == e1
    requires StartsWithNoCase(s[e1..], "&nbsp;") && e1 + 6 <= e2 <= |s| && SpaceRunEnd(s, e1 + 6) == e2
    requires StartsWithNoCase(s[e2..], "</p>")
    ensures MatchAt(NbspPara, s) == Some(Match(e2 + 4, "", ""))
  {
  }

  /** The first character of `x` that is not whitespace exists and is not `&`. */
  predicate OpensWithText(x: string) {
    exists i :: 0 <= i < |x| && AllSpace(x[..i]) && !IsSpace(x[i]) && x[i] != '&'
  }

  /** `<p>\\s*&nbsp;\\s*</p>` does not match at a paragraph whose text opens with another character. */
  lemma TextParaNoNbsp(x: string, post: string)
    requires LtFree(x) && OpensWithText(x)
    ensures MatchAt(NbspPara, "<p>" + (x + ("</p>" + post))).None?
  {
    var s := "<p>" + (x + ("</p>" + post));
    var j :| 0 <= j < |x| && AllSpace(x[..j]) && !IsSpace(x[j]) && x[j] != '&';
    assert s[3..3 + j] == x[..j] && s[3 + j] == x[j];
    SpaceRunOver(s, 3, x[..j]);
    LowerOfNonLetter(s[3 + j], '&');
  }

  /** A paragraph whose text opens with a character other than whitespace or `&` passes the `&nbsp;` rewrite unchanged. */
  lemma TextParaKeptByNbsp(pre: string, x: string, post: string)
    requires LtFree(pre) && LtFree(x) && OpensWithText(x)
    ensures Sub(NbspPara, pre + ("<p>" + (x + ("</p>" + post)))) ==
      pre + ("<p>" + (x + ("</p>" + Sub(NbspPara, post))))
  {
    TextParaNoNbsp(x, post);
    CloseParaNoMatch(true, post);
    ParaPassesThrough(NbspPara, pre, x, post);
  }

  /** A paragraph holding only `&nbsp;` and whitespace, after text without tags, is removed. */
  lemma NbspParaDropped(pre: string, w1: string, w2: string, x: string, post: string)
    requires LtFree(pre) && AllSpace(w1) && AllSpace(w2) && x == w1 + ("&nbsp;" + w2)
    ensures Sub(NbspPara, pre + ("<p>" + (x + ("</p>" + post)))) == pre + Sub(NbspPara, post)
  {
    NbspParaMatch(w1, w2, x, post);
    ReplaceAfterTagFree(NbspPara, pre, "<p>" + (x + ("</p>" + post)), post, Match(|x| + 7, "", ""));
    assert "" + Sub(NbspPara, post) == Sub(NbspPara, post);
  }

  /** The single-tag patterns that leave both paragraph tags as they are. */
  predicate KeepsParagraphs(pat: Pattern) {
    Local(pat) && TagRule(pat, "p") == Some("p") && TagRule(pat, "/p") == Some("/p")
  }

  /** A structure tag pattern whose name is longer than `p` leaves paragraphs alone. */
  lemma StructKeepsParagraphs(n: string)
    requires |n| >= 2 && NoGt(n)
    ensures KeepsParagraphs(StructTag(n))
  {
    assert ("/p")[1..] == "p";
  }

  /** Such a pattern copies a paragraph and the text before it. */
  lemma ParagraphThroughLocal(pat: Pattern, pre: string, x: string, post: string)
    requires KeepsParagraphs(pat) && LtFree(pre) && LtFree(x)
    ensures Sub(pat, pre + ("<p>" + (x + ("</p>" + post)))) == pre + ("<p>" + (x + ("</p>" + Sub(pat, post))))
  {
    ParaTags();
    LocalAt(pat, "p", x + ("</p>" + post));
    LocalAt(pat, "/p", post);
    ParaPassesThrough(pat, pre, x, post);
  }

  /** The heading rewrite copies a paragraph and the text before it. */
  lemma CollapseHeadingsKeepsParagraph(pre: string, x: string, post: string)
    requires LtFree(pre) && LtFree(x)
    ensures CollapseHeadings(pre + ("<p>" + (x + ("</p>" + post)))) ==
      pre + ("<p>" + (x + ("</p>" + CollapseHeadings(post))))
  {
    var o1, c1, o2, c2 := HeadingOpen('1', '2', '3'), HeadingClose('1', '2', '3'), HeadingOpen('5', '6', '4'), HeadingClose('5', '6', '4');
    ParagraphThroughLocal(o1, pre, x, post);
    ParagraphThroughLocal(c1, pre, x, Sub(o1, post));
    ParagraphThroughLocal(o2, pre, x, Sub(c1, Sub(o1, post)));
    ParagraphThroughLocal(c2, pre, x, Sub(o2, Sub(c1, Sub(o1, post))));
  }

  /** The heading rewrite copies text without tags at the front. */
  lemma CollapseHeadingsKeepsPrefix(pre: string, post: string)
    requires LtFree(pre)
    ensures CollapseHeadings(pre + post) == pre + CollapseHeadings(post)
  {
    var o1, c1, o2, c2 := HeadingOpen('1', '2', '3'), HeadingClose('1', '2', '3'), HeadingOpen('5', '6', '4'), HeadingClose('5', '6', '4');
    SubNoLtPrefix(o1, pre, post);
    SubNoLtPrefix(c1, pre, Sub(o1, post));
    SubNoLtPrefix(o2, pre, Sub(c1, Sub(o1, post)));
    SubNoLtPrefix(c2, pre, Sub(o2, Sub(c1, Sub(o1, post))));
  }

  /** Two removing passes in a row over the kept pieces. */
  lemma TwoPasses(ps: seq<Piece>, pats: seq<Pattern>, o: Pattern, c: Pattern)
    requires AllWellFormed(ps) && RemovesOnly(o) && Local(o) && RemovesOnly(c) && Local(c)
    ensures Sub(c, Sub(o, Render(Kept(ps, pats)))) == Render(Kept(ps, pats + [o, c]))
  {
    RemovalPass(o, ps, pats);
    RemovalPass(c, ps, pats + [o]);
    assert pats + [o] + [c] == pats + [o, c];
  }
}
