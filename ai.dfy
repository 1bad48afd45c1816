/**
 * The three language-model wrappers (ai_handler.py). The model service is a
 * function from (system prompt, user message) to a reply, and a prompt file
 * that could not be read is the empty prompt. Each wrapper fails open: a
 * missing prompt or a failed call gives a fixed fallback result.
 */
module AiHandler {
  import opened Wrappers
  import opened Text

  /** The outcome of one chat-completion call: the reply text, or an exception. */
  datatype Reply = Answer(content: string) | Failure

  /** The model service: system prompt and user message to reply. */
  type Service = (string, string) -> Reply

  // ----- is_article_unique -----

  /** The user message of the duplicate check. */
  function DuplicateRequest(newContent: string, existing: seq<string>): string {
    "НОВА СТАТТЯ:\n" + newContent + "\n\nІСНУЮЧІ СТАТТІ:\n" + JoinWith(existing, "\n\n---\n\n")
  }

  /** The verdict read from a reply: the upper-cased, stripped answer mentions `UNIQUE`. */
  predicate SaysUnique(answer: string) {
    Contains(Upper(Strip(answer)), "UNIQUE")
  }

  /** `is_article_unique(new_article_content, existing_articles_content)` */
  function IsArticleUnique(newContent: string, existing: seq<string>, prompt: string, ask: Service): bool {
    if |existing| == 0 then true
    else if prompt == "" then true
    else match ask(prompt, DuplicateRequest(newContent, existing))
      case Failure => true
      case Answer(a) => SaysUnique(a)
  }

  /** With nothing to compare against the article is unique, whatever the service would say. */
  lemma UniqueWithoutComparison(newContent: string, prompt: string, ask: Service)
    ensures IsArticleUnique(newContent, [], prompt, ask)
  {
  }

  /** A missing prompt or a failed call counts as unique. */
  lemma UniqueFailsOpen(newContent: string, existing: seq<string>, prompt: string, ask: Service)
    requires prompt == "" || ask(prompt, DuplicateRequest(newContent, existing)).Failure?
    ensures IsArticleUnique(newContent, existing, prompt, ask)
  {
  }

  /** The article is judged a duplicate only on an answer that does not mention `UNIQUE`. */
  lemma DuplicateOnlyOnAnswer(newContent: string, existing: seq<string>, prompt: string, ask: Service)
    requires !IsArticleUnique(newContent, existing, prompt, ask)
    ensures |existing| > 0 && prompt != ""
    ensures var r := ask(prompt, DuplicateRequest(newContent, existing));
      r.Answer? && !Contains(Upper(Strip(r.content)), "UNIQUE")
  {
  }

  /** Upper-casing keeps an occurrence of an upper-case word. */
  lemma {:induction false} UpperKeepsContains(s: string, p: string)
    requires Contains(s, p) && Upper(p) == p
    ensures Contains(Upper(s), p)
    decreases |s|
  {
    if StartsWith(s, p) {
      assert Upper(s)[..|p|] == Upper(p);
    } else {
      UpperKeepsContains(s[1..], p);
      assert Upper(s)[1..] == Upper(s[1..]);
    }
  }

  /** Any answer that mentions `UNIQUE` counts as unique, a negative one included. */
  lemma MentionCountsAsUnique(answer: string)
    requires Contains(Strip(answer), "UNIQUE")
    ensures SaysUnique(answer)
  {
    UpperKeepsContains(Strip(answer), "UNIQUE");
  }

  /** The answer `NOT UNIQUE` is read as unique. */
  lemma NotUniqueCountsAsUnique(newContent: string, existing: seq<string>, prompt: string, ask: Service)
    requires |existing| > 0 && prompt != ""
    requires ask(prompt, DuplicateRequest(newContent, existing)) == Answer("NOT UNIQUE")
    ensures IsArticleUnique(newContent, existing, prompt, ask)
  {
    var a := "NOT UNIQUE";
    assert a == "NOT " + "UNIQUE";
    ContainsAfterPrefix("NOT ", "UNIQUE");
    StripNoop(a);
    MentionCountsAsUnique(a);
  }

  // ----- process_and_translate_article -----

  const ContentHeader: string := "ОСНОВНИЙ КОНТЕНТ СТАТТІ:\n"
  const ContextHeader: string := "\n\nДОДАТКОВИЙ КОНТЕКСТ (використовуй тільки релевантні частини):\n"

  /** The user message of the processing call. */
  function ProcessRequest(mainContent: string, context: string): string {
    ContentHeader + mainContent + (if Strip(context) != "" then ContextHeader + context else "")
  }

  /** A leading ```` ```html ```` and a trailing ```` ``` ```` are dropped, then the text is stripped. */
  function StripFences(reply: string): (r: string)
    ensures NoSpaceAtEnds(r)
  {
    var p := Strip(reply);
    var a := if StartsWith(p, "```html") then p[7..] else p;
    var b := if EndsWith(a, "```") then a[..|a| - 3] else a;
    Strip(b)
  }

  /** `process_and_translate_article(main_content, additional_context)` */
  function ProcessAndTranslate(mainContent: string, context: string, prompt: string, ask: Service): string {
    if prompt == "" then mainContent
    else match ask(prompt, ProcessRequest(mainContent, context))
      case Failure => mainContent
      case Answer(a) => StripFences(a)
  }

  /** A missing prompt or a failed call returns the input unchanged. */
  lemma ProcessFailsOpen(mainContent: string, context: string, prompt: string, ask: Service)
    requires prompt == "" || ask(prompt, ProcessRequest(mainContent, context)).Failure?
    ensures ProcessAndTranslate(mainContent, context, prompt, ask) == mainContent
  {
  }

  /** The context section is added exactly when the context is not blank, and then ends the message. */
  lemma ContextSectionIff(mainContent: string, context: string)
    ensures ProcessRequest(mainContent, context) == ContentHeader + mainContent <==> Strip(context) == ""
    ensures Strip(context) != "" ==> EndsWith(ProcessRequest(mainContent, context), ContextHeader + context)
  {
    var base := ContentHeader + mainContent;
    if Strip(context) != "" {
      var m := ProcessRequest(mainContent, context);
      assert m == base + (ContextHeader + context);
      assert |m| > |base|;
      assert m[|m| - |ContextHeader + context|..] == ContextHeader + context;
    }
  }

  /** A fenced block comes back as its stripped body. */
  lemma FenceRoundTrip(body: string)
    ensures StripFences("```html" + body + "```") == Strip(body)
  {
    var f := "```html" + body + "```";
    assert f[0] == '`' && f[|f| - 1] == '`';
    StripNoop(f);
    assert f[..7] == "```html";
    var a := f[7..];
    assert a == body + "```";
    assert a[|a| - 3..] == "```";
    assert a[..|a| - 3] == body;
  }

  /** A reply without fences is only stripped. */
  lemma UnfencedReply(reply: string)
    requires !StartsWith(Strip(reply), "```html") && !EndsWith(Strip(reply), "```")
    ensures StripFences(reply) == Strip(reply)
  {
    StripIdempotent(reply);
  }

  // ----- generate_title_and_description -----

  /** The keys of the decoded JSON object that the bot reads. */
  datatype TitleFields = TitleFields(title: Option<string>, description: Option<string>)

  const Defaults: TitleFields := TitleFields(Some("Новина"), Some("Цікава стаття"))

  function TrimField(f: Option<string>): Option<string> {
    match f
    case None => None
    case Some(s) => Some(TrimPunct(s))
  }

  /**
   * `generate_title_and_description(article_content)`; `parse` is `json.loads`
   * on the reply, `None` where it raises.
   */
  function GenerateTitleAndDescription(content: string, prompt: string, ask: Service, parse: string -> Option<TitleFields>): TitleFields {
    if prompt == "" then Defaults
    else match ask(prompt, "КОНТЕНТ СТАТТІ:\n" + content)
      case Failure => Defaults
      case Answer(a) =>
        match parse(a)
        case None => Defaults
        case Some(f) => TitleFields(TrimField(f.title), TrimField(f.description))
  }

  /**
   * Without a prompt, on a failed call or an unparsable reply the defaults are
   * returned; otherwise each key present in the reply becomes its value with
   * trailing punctuation and then surrounding whitespace removed (so it has no
   * whitespace at either end and is no longer than before), and an absent key
   * stays absent.
   */
  lemma TitleAndDescriptionSpec(content: string, prompt: string, ask: Service, parse: string -> Option<TitleFields>)
    ensures var r := GenerateTitleAndDescription(content, prompt, ask, parse);
      var reply := ask(prompt, "КОНТЕНТ СТАТТІ:\n" + content);
      (prompt == "" || reply.Failure? || parse(reply.content).None? ==> r == Defaults) &&
      (prompt != "" && reply.Answer? && parse(reply.content).Some? ==>
        var f := parse(reply.content).value;
        r.title == (if f.title.Some? then Some(TrimPunct(f.title.value)) else None) &&
        r.description == (if f.description.Some? then Some(TrimPunct(f.description.value)) else None) &&
        (r.title.Some? ==> NoSpaceAtEnds(r.title.value) && |r.title.value| <= |f.title.value|) &&
        (r.description.Some? ==> NoSpaceAtEnds(r.description.value) && |r.description.value| <= |f.description.value|))
  {
  }
}
