/**
 * The moderation round (telegram_bot.py): a draft with a publish button is
 * sent to the preview channel, and pressing the button posts the draft,
 * without its source line, to the public channel. Telegram transport is not
 * modelled: the handler is a function from what it observes to the list of
 * messages it sends or edits.
 */
module TelegramBot {
  import opened Wrappers
  import opened Text
  import Database

  const CallbackPrefix: string := "pub_"
  const SourceLabel: string := "Джерело</a>"
  const LinkOpen: string := "<a href="

  /** The first line of a draft: the title in bold. */
  function TitleLine(title: string): string {
    "<b>" + title + "</b>"
  }

  /** The last line of a draft: the link to the original article. */
  function SourceLine(url: string): string {
    "<a href='" + url + "'>" + SourceLabel
  }

  /** `send_for_moderation`: the draft message text. */
  function DraftText(title: string, description: string, url: string): string {
    TitleLine(title) + "\n\n" + description + "\n\n" + SourceLine(url)
  }

  /** `send_for_moderation`: the publish button's callback data, `pub_<id>`. */
  function CallbackData(id: int): string {
    CallbackPrefix + IntToString(id)
  }

  /** `int(callback_data.replace("pub_", ""))`; `None` stands for `ValueError`. */
  function ParseCallback(data: string): Option<int> {
    ParseInt(Replace(data, CallbackPrefix, ""))
  }

  /** The callback data of an article decodes to its id. */
  lemma CallbackRoundTrip(id: int)
    ensures ParseCallback(CallbackData(id)) == Some(id)
  {
    ReplaceLeadingOccurrence(CallbackPrefix, IntToString(id), "");
    assert "" + IntToString(id) == IntToString(id);
    ParseIntOfIntToString(id);
  }

  /** A line that links to the source: it has both `<a href=` and `Джерело</a>`. */
  predicate IsSourceLine(line: string) {
    Contains(line, LinkOpen) && Contains(line, SourceLabel)
  }

  /** The lines kept by the filter loop, in order. */
  function KeepLines(lines: seq<string>): seq<string> {
    if |lines| == 0 then []
    else
      var last := lines[|lines| - 1];
      KeepLines(lines[..|lines| - 1]) + (if IsSourceLine(last) then [] else [last])
  }

  /** The text posted to the public channel for a draft. */
  function PublishText(draft: string): string {
    Strip(JoinWith(KeepLines(SplitOn(draft, "\n")), "\n"))
  }

  /** `handle_publish_callback`, lines 73-81: every source line is dropped, the rest joined and stripped. */
  method FilterSourceFooter(draft: string) returns (publish: string)
    ensures publish == PublishText(draft)
  {
    var lines := SplitOn(draft, "\n");
    var kept: seq<string> := [];
    for i := 0 to |lines|
      invariant kept == KeepLines(lines[..i])
    {
      assert lines[..i + 1][..i] == lines[..i];
      if !IsSourceLine(lines[i]) {
        kept := kept + [lines[i]];
      }
    }
    assert lines[..|lines|] == lines;
    publish := Strip(JoinWith(kept, "\n"));
  }

  /**
   * The filter keeps exactly the lines that are not source lines, in their
   * order: no source line survives, and every other line does.
   */
  lemma {:induction false} KeepLinesSpec(lines: seq<string>)
    ensures forall k :: 0 <= k < |KeepLines(lines)| ==> !IsSourceLine(KeepLines(lines)[k])
    ensures forall k :: 0 <= k < |lines| && !IsSourceLine(lines[k]) ==> lines[k] in KeepLines(lines)
    ensures forall l :: l in KeepLines(lines) ==> l in lines
    ensures |KeepLines(lines)| <= |lines|
  {
    if |lines| > 0 {
      var init := lines[..|lines| - 1];
      KeepLinesSpec(init);
      forall k | 0 <= k < |lines| && !IsSourceLine(lines[k]) ensures lines[k] in KeepLines(lines) {
        if k < |lines| - 1 {
          assert lines[k] == init[k];
        }
      }
    }
  }

  /** Filtering two runs of lines one after the other is filtering each. */
  lemma {:induction false} KeepLinesAppend(a: seq<string>, b: seq<string>)
    ensures KeepLines(a + b) == KeepLines(a) + KeepLines(b)
    decreases |b|
  {
    if |b| == 0 {
      assert a + b == a;
    } else {
      var init := b[..|b| - 1];
      KeepLinesAppend(a, init);
      assert (a + b)[..|a + b| - 1] == a + init;
      assert (a + b)[|a + b| - 1] == b[|b| - 1];
    }
  }

  /**
   * Read from the front, the filter keeps or drops each line on its own, so
   * order and repeated lines (a draft has two empty ones) are kept.
   */
  lemma KeepLinesFront(l: string, rest: seq<string>)
    ensures KeepLines([l] + rest) == (if IsSourceLine(l) then [] else [l]) + KeepLines(rest)
  {
    KeepLinesAppend([l], rest);
    assert [l][..0] == [];
  }

  predicate OneLine(s: string) {
    forall i :: 0 <= i < |s| ==> s[i] != '\n'
  }

  /** Joining single lines with newlines and splitting again gives the lines back. */
  lemma {:induction false} SplitJoinedLines(ls: seq<string>)
    requires |ls| > 0 && forall k :: 0 <= k < |ls| ==> OneLine(ls[k])
    ensures SplitOn(JoinWith(ls, "\n"), "\n") == ls
    decreases |ls|
  {
    if |ls| == 1 {
      SplitWithoutSeparator(ls[0], '\n');
    } else {
      SplitJoinedLines(ls[1..]);
      SplitAtFirst(ls[0], '\n', JoinWith(ls[1..], "\n"));
      assert ls == [ls[0]] + ls[1..];
    }
  }

  /** A draft is its five lines joined by newlines. */
  lemma DraftIsJoin(title: string, description: string, url: string)
    ensures DraftText(title, description, url) ==
      JoinWith([TitleLine(title), "", description, "", SourceLine(url)], "\n")
  {
    var t, s := TitleLine(title), SourceLine(url);
    var ls := [t, "", description, "", s];
    assert ls[1..] == ["", description, "", s];
    assert ls[1..][1..] == [description, "", s];
    assert ls[1..][1..][1..] == ["", s];
    assert ls[1..][1..][1..][1..] == [s];
    assert JoinWith(["", s], "\n") == "\n" + s;
    assert JoinWith([description, "", s], "\n") == description + "\n\n" + s;
    assert JoinWith(["", description, "", s], "\n") == "\n" + description + "\n\n" + s;
  }

  /** The five lines of a draft whose parts are single lines. */
  lemma DraftLines(title: string, description: string, url: string)
    requires OneLine(title) && OneLine(description) && OneLine(url)
    ensures SplitOn(DraftText(title, description, url), "\n") ==
      [TitleLine(title), "", description, "", SourceLine(url)]
  {
    var ls := [TitleLine(title), "", description, "", SourceLine(url)];
    assert OneLine(TitleLine(title));
    assert OneLine(SourceLine(url));
    DraftIsJoin(title, description, url);
    SplitJoinedLines(ls);
  }

  lemma KeepSnoc(ls: seq<string>, x: string)
    ensures KeepLines(ls + [x]) == KeepLines(ls) + (if IsSourceLine(x) then [] else [x])
  {
    assert (ls + [x])[..|ls|] == ls;
  }

  lemma SourceLineIsSource(url: string)
    ensures IsSourceLine(SourceLine(url))
  {
    var s := SourceLine(url);
    assert StartsWith(s, LinkOpen);
    assert s == "<a href='" + url + "'>" + SourceLabel;
    ContainsAfterPrefix("<a href='" + url + "'>", SourceLabel);
  }

  lemma StripTrailingNewline(x: string)
    requires x != "" && NoSpaceAtEnds(x)
    ensures Strip(x + "\n") == x
  {
    var s := x + "\n";
    assert SpaceRunEnd(s, 0) == 0;
    assert SpaceRunStart(s, 0, |s|) == |x|;
    assert s[0..|x|] == x;
  }

  lemma JoinKeptLines(t: string, d: string)
    ensures JoinWith([t, "", d, ""], "\n") == (t + "\n\n" + d) + "\n"
  {
    var ls := [t, "", d, ""];
    assert ls[1..] == ["", d, ""];
    assert ls[1..][1..] == [d, ""];
    assert ls[1..][1..][1..] == [""];
    assert JoinWith([""], "\n") == "";
    assert JoinWith([d, ""], "\n") == d + "\n";
    assert JoinWith(["", d, ""], "\n") == "\n" + d + "\n";
  }

  /**
   * Publishing a draft posts its title line, a blank line and the
   * description: exactly the source line is gone.
   */
  lemma PublishedDraft(title: string, description: string, url: string)
    requires OneLine(title) && OneLine(description) && OneLine(url)
    requires !IsSourceLine(TitleLine(title)) && !IsSourceLine(description)
    requires description != "" && NoSpaceAtEnds(description)
    ensures PublishText(DraftText(title, description, url)) == TitleLine(title) + "\n\n" + description
  {
    var t := TitleLine(title);
    DraftLines(title, description, url);
    SourceLineIsSource(url);
    assert !Contains("", LinkOpen);
    KeepSnoc([], t);
    KeepSnoc([t], "");
    KeepSnoc([t, ""], description);
    KeepSnoc([t, "", description], "");
    KeepSnoc([t, "", description, ""], SourceLine(url));
    assert [] + [t] == [t] && [t] + [""] == [t, ""] && [t, ""] + [description] == [t, "", description];
    assert [t, "", description] + [""] == [t, "", description, ""];
    assert [t, "", description, "", SourceLine(url)] == [t, "", description, ""] + [SourceLine(url)];
    JoinKeptLines(t, description);
    var x := t + "\n\n" + description;
    assert x[0] == '<' && x[|x| - 1] == description[|description| - 1];
    StripTrailingNewline(x);
    var lines := SplitOn(DraftText(title, description, url), "\n");
    assert KeepLines(lines) == [t, "", description, ""];
    assert JoinWith(KeepLines(lines), "\n") == x + "\n";
  }

  // ----- handle_publish_callback -----

  /** The outcome of `query.answer()`: acknowledged, or an exception with its message. */
  datatype AnswerOutcome = Answered | AnswerFailed(message: string)

  /** A message the handler sends: a post to the public channel, or an edit of the draft. */
  datatype Effect = Publish(text: string) | EditDraft(text: string)

  const NotFoundNote: string := "\n\n<b>❌ Помилка: стаття не знайдена</b>"
  const BadIdNote: string := "\n\n<b>❌ Помилка: невірний ID статті</b>"
  const PublishedNote: string := "\n\n<b>✅ Опубліковано</b>"
  const FailureNote: string := "\n\n<b>❌ Помилка публікації:</b> "

  /** An expired query is answered late but still handled. */
  predicate Expired(message: string) {
    Contains(message, "too old") || Contains(message, "timeout expired")
  }

  /** The article has a page: it exists and its `telegraph_url` is non-empty. */
  predicate HasPage(t: Database.Table, id: int) {
    var a := Database.ById(t, id);
    a.Some? && a.value.telegraphUrl.Some? && a.value.telegraphUrl.value != ""
  }

  /**
   * `handle_publish_callback`: `draft` is the draft's `text_html`, `t` the
   * article table, and `sendError` the message of the exception raised by the
   * public post, if any.
   */
  function HandlePublish(answer: AnswerOutcome, data: string, draft: string, t: Database.Table, sendError: Option<string>): seq<Effect> {
    if answer.AnswerFailed? && !Expired(answer.message) then []
    else if !StartsWith(data, CallbackPrefix) then []
    else match ParseCallback(data)
      case None => [EditDraft(draft + BadIdNote)]
      case Some(id) =>
        if !HasPage(t, id) then [EditDraft(draft + NotFoundNote)]
        else match sendError
          case Some(e) => [EditDraft(draft + FailureNote + e)]
          case None => [Publish(PublishText(draft)), EditDraft(draft + PublishedNote)]
  }

  predicate Posts(effects: seq<Effect>) {
    exists k :: 0 <= k < |effects| && effects[k].Publish?
  }

  /**
   * A public post happens exactly when the query was answered (or only
   * expired), the data decodes to an article with a page, and the post
   * itself succeeded; it is then the only post, followed by the approval
   * note on the draft.
   */
  lemma PostIff(answer: AnswerOutcome, data: string, draft: string, t: Database.Table, sendError: Option<string>)
    ensures var effects := HandlePublish(answer, data, draft, t, sendError);
      Posts(effects) <==>
        ((answer.Answered? || Expired(answer.message)) && StartsWith(data, CallbackPrefix) &&
         ParseCallback(data).Some? && HasPage(t, ParseCallback(data).value) && sendError.None?)
    ensures var effects := HandlePublish(answer, data, draft, t, sendError);
      Posts(effects) ==> effects == [Publish(PublishText(draft)), EditDraft(draft + PublishedNote)]
  {
    var effects := HandlePublish(answer, data, draft, t, sendError);
    if (answer.Answered? || Expired(answer.message)) && StartsWith(data, CallbackPrefix) &&
       ParseCallback(data).Some? && HasPage(t, ParseCallback(data).value) && sendError.None? {
      assert effects[0].Publish?;
    } else {
      assert forall k :: 0 <= k < |effects| ==> effects[k].EditDraft?;
    }
  }

  /** Pressing the button of a stored article with a page posts the filtered draft. */
  lemma ApprovalPublishes(id: int, draft: string, t: Database.Table)
    requires HasPage(t, id)
    ensures HandlePublish(Answered, CallbackData(id), draft, t, None) ==
      [Publish(PublishText(draft)), EditDraft(draft + PublishedNote)]
  {
    CallbackRoundTrip(id);
    assert StartsWith(CallbackData(id), CallbackPrefix);
  }

  /** A missing article, or one without a page, only gets the error note. */
  lemma MissingArticleNotPosted(id: int, draft: string, t: Database.Table, sendError: Option<string>)
    requires !HasPage(t, id)
    ensures HandlePublish(Answered, CallbackData(id), draft, t, sendError) == [EditDraft(draft + NotFoundNote)]
  {
    CallbackRoundTrip(id);
    assert StartsWith(CallbackData(id), CallbackPrefix);
  }

  /** Data that starts with `pub_` but holds no integer only gets the error note. */
  lemma BadIdNotPosted(data: string, draft: string, t: Database.Table, sendError: Option<string>)
    requires StartsWith(data, CallbackPrefix) && ParseCallback(data).None?
    ensures HandlePublish(Answered, data, draft, t, sendError) == [EditDraft(draft + BadIdNote)]
  {
  }

  /** Nothing records an approval: pressing the button on the approved draft posts again. */
  lemma RepeatedApprovalPostsAgain(id: int, draft: string, t: Database.Table)
    requires HasPage(t, id)
    ensures Posts(HandlePublish(Answered, CallbackData(id), draft, t, None))
    ensures Posts(HandlePublish(Answered, CallbackData(id), draft + PublishedNote, t, None))
  {
    ApprovalPublishes(id, draft, t);
    ApprovalPublishes(id, draft + PublishedNote, t);
    assert HandlePublish(Answered, CallbackData(id), draft, t, None)[0].Publish?;
    assert HandlePublish(Answered, CallbackData(id), draft + PublishedNote, t, None)[0].Publish?;
  }
}
