/**
 * One tick of the news job (main.py `check_news_job`): gather candidates from
 * every feed, then take each one through scraping, the duplicate check,
 * rewriting, page creation, storage and the moderation draft. Every foreign
 * call is a field of `Services`.
 */
module Pipeline {
  import opened Wrappers
  import opened Text
  import opened Patterns
  import Database
  import RssReader
  import Scraper
  import AiHandler
  import TelegraphClient
  import TelegramBot

  /** The content stored for an article judged a semantic duplicate. */
  const Sentinel: string := "SEMANTIC_DUPLICATE_CHECKED"
  /** The marker the model writes where the page URL belongs. */
  const LinkPlaceholder: string := "LINK_PLACEHOLDER"

  /** The three prompt files, each `""` when it could not be read. */
  datatype Prompts = Prompts(duplicateCheck: string, processing: string, titles: string)

  /** The foreign calls of one tick. */
  datatype Services = Services(
    fetchFeed: string -> RssReader.Feed,                  // feedparser.parse
    fetchPage: string -> Option<string>,                  // the HTTP fetch of an article
    parse: string -> Scraper.Page,                        // BeautifulSoup
    extract: string -> Scraper.Extraction,                // trafilatura
    prompts: Prompts,
    ask: AiHandler.Service,                               // the chat model
    parseJson: string -> Option<AiHandler.TitleFields>,   // json.loads
    createPage: (string, string) -> Option<string>,       // telegraph.create_page on (title, cleaned html)
    deliver: string -> bool)                              // whether send_message of a draft succeeds

  /**
   * The calls the loop body makes, each as the function of its arguments
   * that the rest of the model defines for it (`Bind`).
   */
  datatype Calls = Calls(
    scrape: string -> Option<Scraper.Scraped>,            // scrape_article_content(link)
    isUnique: (string, seq<string>) -> bool,              // is_article_unique(content, todays)
    rewrite: string -> (string, string, string),          // lines 111-127: content, title and description
    createPage: (string, string) -> Option<string>,       // create_telegraph_page(title, content)
    deliver: string -> bool)                              // whether send_for_moderation succeeds

  /** The draft sent for moderation: its text and its button's callback data. */
  datatype Draft = Draft(text: string, callbackData: string)

  /** How the processing of one candidate ended. */
  datatype Outcome =
    | KnownLink          // line 62: the link is already stored
    | ScrapeFailed       // line 77
    | SemanticDuplicate  // line 99: stored with the sentinel content
    | HostingFailed      // line 137: no page URL
    | InsertFailed       // line 153
    | Processed(id: int, pageUrl: string)

  datatype StepResult = StepResult(table: Database.Table, drafts: seq<Draft>, outcome: Outcome)

  /** `create_telegraph_page(title, content_html)` */
  function CreateTelegraphPage(svc: Services, title: string, content: string): Option<string> {
    svc.createPage(title, TelegraphClient.CleanHtmlForTelegraph(content))
  }

  /** The page title: the placeholder link unwrapped to its text (line 131). */
  function PageTitle(title: string): string {
    Sub(PlaceholderAnchor, title)
  }

  /** `s.replace('LINK_PLACEHOLDER', url)` (lines 144-145). */
  function FinalText(s: string, url: string): string {
    Replace(s, LinkPlaceholder, url)
  }

  /** `send_for_moderation(title, short_description, original_url, article_id)` */
  function ModerationDraft(title: string, description: string, url: string, id: int): Draft {
    Draft(TelegramBot.DraftText(title, description, url), TelegramBot.CallbackData(id))
  }

  /** The scraper's result for a link. */
  function Scrape(svc: Services, link: string): Option<Scraper.Scraped> {
    Scraper.ScrapeArticleContent(svc.fetchPage(link), svc.parse, svc.extract)
  }

  /** `get_todays_articles_content()` on the table. */
  function TodaysContents(t: Database.Table, today: int): seq<string> {
    Database.TodayIdsShape(t, today, t.nextId, 5);
    Database.ContentsOf(t, today, Database.TodaysIds(t, today))
  }

  /** Lines 111-127 for a unique article: the rewritten content and the title and description with placeholders. */
  function Rewrite(svc: Services, content: string): (string, string, string) {
    var processed := AiHandler.ProcessAndTranslate(content, "", svc.prompts.processing, svc.ask);
    var fields := AiHandler.GenerateTitleAndDescription(processed, svc.prompts.titles, svc.ask, svc.parseJson);
    (processed, fields.title.GetOr("Новина"), fields.description.GetOr("Цікава стаття"))
  }

  /** The calls of a tick in terms of its services. */
  function Bind(svc: Services): Calls {
    Calls(
      link => Scrape(svc, link),
      (content, todays) => AiHandler.IsArticleUnique(content, todays, svc.prompts.duplicateCheck, svc.ask),
      content => Rewrite(svc, content),
      (title, content) => CreateTelegraphPage(svc, title, content),
      svc.deliver)
  }

  /**
   * The loop body, lines 55-188, for one candidate, with the three-argument
   * insert `add_article_base` defines. `now` is the clock reading that fills
   * `created_at`, `today` the local date.
   */
  function Step(calls: Calls, today: int, now: Database.Stamp, t: Database.Table, item: RssReader.FeedItem): StepResult {
    var link := item.link;
    if Database.Exists(t, link) then StepResult(t, [], KnownLink)
    else match calls.scrape(link)
      case None => StepResult(t, [], ScrapeFailed)
      case Some(scraped) =>
        var content := scraped.article.contentHtml;
        if !calls.isUnique(content, TodaysContents(t, today)) then
          StepResult(Database.AddArticle(t, link, item.title, Sentinel, now).0, [], SemanticDuplicate)
        else
          var (processed, titleP, descriptionP) := calls.rewrite(content);
          var page := calls.createPage(PageTitle(titleP), processed);
          if page.None? || page.value == "" then StepResult(t, [], HostingFailed)
          else Store(calls, now, t, item, processed, FinalText(titleP, page.value), FinalText(descriptionP, page.value), page.value)
  }

  /** Lines 151-183: insert, update by the new id, send the draft. */
  function Store(calls: Calls, now: Database.Stamp, t: Database.Table, item: RssReader.FeedItem,
                 processed: string, finalTitle: string, finalDescription: string, url: string): StepResult
  {
    var (t1, id) := Database.AddArticle(t, item.link, finalTitle, processed, now);
    match id
    case None => StepResult(t1, [], InsertFailed)
    case Some(n) =>
      var draft := ModerationDraft(finalTitle, finalDescription, item.link, n);
      StepResult(Database.UpdateTranslation(t1, n, processed, url),
                 if calls.deliver(draft.text) then [draft] else [], Processed(n, url))
  }

  // ----- What one candidate does -----

  /** A stored link is skipped before any scrape, model or page call: no call is consulted. */
  lemma KnownLinkSkipped(calls: Calls, other: Calls, today: int, now: Database.Stamp, t: Database.Table, item: RssReader.FeedItem)
    requires Database.Exists(t, item.link)
    ensures Step(calls, today, now, t, item) == StepResult(t, [], KnownLink)
    ensures Step(other, today, now, t, item) == Step(calls, today, now, t, item)
  {
  }

  /** A failed scrape writes nothing and sends nothing. */
  lemma ScrapeFailureWritesNothing(calls: Calls, today: int, now: Database.Stamp, t: Database.Table, item: RssReader.FeedItem)
    requires !Database.Exists(t, item.link) && calls.scrape(item.link).None?
    ensures Step(calls, today, now, t, item) == StepResult(t, [], ScrapeFailed)
  {
  }

  /**
   * A semantic duplicate is stored under its link with the sentinel content
   * and its feed title, and nothing is sent; the rewrite and the page
   * creation are not consulted.
   */
  lemma DuplicateStoresSentinel(calls: Calls, today: int, now: Database.Stamp, t: Database.Table, item: RssReader.FeedItem,
                                rewrite: string -> (string, string, string), createPage: (string, string) -> Option<string>)
    requires Database.ValidTable(t)
    requires Step(calls, today, now, t, item).outcome == SemanticDuplicate
    ensures var r := Step(calls, today, now, t, item);
      r.drafts == [] &&
      r.table.rows == t.rows[t.nextId := Database.Row(item.link, item.title, Some(Sentinel), None, None, now)] &&
      r.table.nextId == t.nextId + 1
    ensures Step(calls.(rewrite := rewrite, createPage := createPage), today, now, t, item) ==
      Step(calls, today, now, t, item)
  {
    Database.AddArticleSpec(t, item.link, item.title, Sentinel, now);
  }

  /** A duplicate stored today is seen by later duplicate checks' query of today's rows. */
  lemma SentinelCountsToday(calls: Calls, today: int, now: Database.Stamp, t: Database.Table, item: RssReader.FeedItem)
    requires Database.ValidTable(t) && now.localDay == today
    requires Step(calls, today, now, t, item).outcome == SemanticDuplicate
    ensures Database.Qualifies(Step(calls, today, now, t, item).table, today, t.nextId)
  {
    DuplicateStoresSentinel(calls, today, now, t, item, calls.rewrite, calls.createPage);
  }

  /** Without a page URL nothing is written and nothing is sent. */
  lemma HostingFailureWritesNothing(calls: Calls, today: int, now: Database.Stamp, t: Database.Table, item: RssReader.FeedItem)
    requires Step(calls, today, now, t, item).outcome == HostingFailed
    ensures Step(calls, today, now, t, item).table == t && Step(calls, today, now, t, item).drafts == []
  {
  }

  /** Storing a new link: insert under the next id, then update that row; the draft names the same id. */
  lemma StoreSpec(calls: Calls, now: Database.Stamp, t: Database.Table, item: RssReader.FeedItem,
                  processed: string, finalTitle: string, finalDescription: string, url: string)
    requires Database.ValidTable(t) && !Database.Exists(t, item.link) && url != ""
    ensures var r := Store(calls, now, t, item, processed, finalTitle, finalDescription, url);
      r.outcome == Processed(t.nextId, url) &&
      Database.ValidTable(r.table) &&
      r.table.rows == t.rows[t.nextId := Database.Row(item.link, finalTitle, Some(processed), Some(processed), Some(url), now)] &&
      Database.ById(r.table, t.nextId) == Some(Database.ArticleView(t.nextId, finalTitle, Some(url), Some(processed))) &&
      TelegramBot.HasPage(r.table, t.nextId) &&
      |r.drafts| <= 1 &&
      (forall d :: d in r.drafts ==>
        d == ModerationDraft(finalTitle, finalDescription, item.link, t.nextId) &&
        TelegramBot.ParseCallback(d.callbackData) == Some(t.nextId))
  {
    Database.AddArticleSpec(t, item.link, finalTitle, processed, now);
    var t1 := Database.AddArticle(t, item.link, finalTitle, processed, now).0;
    Database.UpdateSpec(t1, t.nextId, processed, url);
    TelegramBot.CallbackRoundTrip(t.nextId);
  }

  /**
   * A processed candidate was new and got a non-empty page URL; its row is
   * the stored, updated one of `Store`, carrying that page.
   */
  lemma ProcessedSpec(calls: Calls, today: int, now: Database.Stamp, t: Database.Table, item: RssReader.FeedItem)
    requires Database.ValidTable(t)
    requires Step(calls, today, now, t, item).outcome.Processed?
    ensures var r := Step(calls, today, now, t, item);
      r.outcome.id == t.nextId && r.outcome.pageUrl != "" && !Database.Exists(t, item.link) &&
      Database.ValidTable(r.table) &&
      r.table.rows.Keys == t.rows.Keys + {t.nextId} &&
      r.table.rows[t.nextId].originalUrl == item.link &&
      r.table.rows[t.nextId].telegraphUrl == Some(r.outcome.pageUrl) &&
      TelegramBot.HasPage(r.table, t.nextId) && |r.drafts| <= 1 &&
      (forall d :: d in r.drafts ==>
        d.callbackData == TelegramBot.CallbackData(t.nextId) && TelegramBot.ParseCallback(d.callbackData) == Some(t.nextId))
  {
    var content := calls.scrape(item.link).value.article.contentHtml;
    var (processed, titleP, descriptionP) := calls.rewrite(content);
    var url := calls.createPage(PageTitle(titleP), processed).value;
    StoreSpec(calls, now, t, item, processed, FinalText(titleP, url), FinalText(descriptionP, url), url);
  }

  /** A failed moderation send changes neither what is stored nor how the candidate ended. */
  lemma SendFailureKeepsWrites(calls: Calls, today: int, now: Database.Stamp, t: Database.Table, item: RssReader.FeedItem,
                               deliver: string -> bool)
    ensures Step(calls.(deliver := deliver), today, now, t, item).table == Step(calls, today, now, t, item).table
    ensures Step(calls.(deliver := deliver), today, now, t, item).outcome == Step(calls, today, now, t, item).outcome
  {
  }

  /**
   * A step keeps the table valid and leaves every existing row as it was; the link is stored
   * afterwards exactly when it was known, a duplicate, or processed, so a
   * candidate that failed to scrape or to get a page is tried again next tick.
   */
  lemma StepKeepsValid(calls: Calls, today: int, now: Database.Stamp, t: Database.Table, item: RssReader.FeedItem)
    requires Database.ValidTable(t)
    ensures var r := Step(calls, today, now, t, item);
      Database.ValidTable(r.table) && t.nextId <= r.table.nextId && !r.outcome.InsertFailed? &&
      (forall id :: id in t.rows ==> id in r.table.rows && r.table.rows[id] == t.rows[id]) &&
      (Database.Exists(r.table, item.link) <==> (r.outcome.KnownLink? || r.outcome.SemanticDuplicate? || r.outcome.Processed?))
  {
    var r := Step(calls, today, now, t, item);
    if r.outcome.SemanticDuplicate? {
      Database.AddArticleSpec(t, item.link, item.title, Sentinel, now);
    } else if !r.outcome.KnownLink? && !r.outcome.ScrapeFailed? && !r.outcome.HostingFailed? {
      var content := calls.scrape(item.link).value.article.contentHtml;
      var (processed, titleP, descriptionP) := calls.rewrite(content);
      var url := calls.createPage(PageTitle(titleP), processed).value;
      StoreSpec(calls, now, t, item, processed, FinalText(titleP, url), FinalText(descriptionP, url), url);
      assert r.table.rows[t.nextId].originalUrl == item.link;
    }
  }

  /**
   * Every placeholder is replaced: the final text is the placeholder-free
   * pieces of the text joined by the URL, and putting the placeholder back
   * between them restores the text.
   */
  lemma PlaceholderReplaced(s: string, url: string)
    ensures FinalText(s, url) == JoinWith(SplitOn(s, LinkPlaceholder), url)
    ensures forall k :: 0 <= k < |SplitOn(s, LinkPlaceholder)| ==> !Contains(SplitOn(s, LinkPlaceholder)[k], LinkPlaceholder)
    ensures JoinWith(SplitOn(s, LinkPlaceholder), LinkPlaceholder) == s
  {
    ReplaceIsSplitJoin(s, LinkPlaceholder, url);
    SplitPiecesFree(s, LinkPlaceholder);
  }

  /** The page title keeps the linked words of a title and drops the placeholder link around them. */
  lemma PageTitleUnwraps(pre: string, x: string, post: string)
    requires forall i :: 0 <= i < |pre| ==> pre[i] != '<'
    requires |x| > 0 && forall i :: 0 <= i < |x| ==> x[i] != '\n' && x[i] != '<'
    requires forall i :: 0 <= i < |post| ==> post[i] != '<'
    ensures PageTitle(pre + PlaceholderLink(x) + post) == pre + x + post
  {
    UnwrapPlaceholderAnchor(pre, x, post);
  }

  // ----- One tick -----

  /** The loop body as a function of the table it starts from and the candidate. */
  type Body = (Database.Table, RssReader.FeedItem) -> StepResult

  /** The loop body of a tick with these calls, date and clock reading. */
  function BodyOf(calls: Calls, today: int, now: Database.Stamp): Body {
    (t, item) => Step(calls, today, now, t, item)
  }

  /** `body` is the loop body of a tick with these calls, date and clock reading. */
  ghost predicate Implements(body: Body, calls: Calls, today: int, now: Database.Stamp) {
    forall t, item {:trigger Step(calls, today, now, t, item)} :: body(t, item) == Step(calls, today, now, t, item)
  }

  lemma BodyOfImplements(calls: Calls, today: int, now: Database.Stamp)
    ensures Implements(BodyOf(calls, today, now), calls, today, now)
  {
  }

  /** The state a tick leaves: the table, the drafts delivered, `processed_count`, and the 5-second pauses taken. */
  datatype Tick = Tick(table: Database.Table, drafts: seq<Draft>, processed: nat, pauses: nat)

  /**
   * Lines 54-188 over the first `n` candidates: the loop body on each in
   * order, on the table the previous one left; a processed candidate that is
   * not the last one is followed by a pause.
   */
  function Run(body: Body, t0: Database.Table, cs: seq<RssReader.FeedItem>, n: nat): Tick
    requires n <= |cs|
    decreases n
  {
    if n == 0 then Tick(t0, [], 0, 0)
    else
      var prev := Run(body, t0, cs, n - 1);
      var r := body(prev.table, cs[n - 1]);
      if r.outcome.Processed? then
        Tick(r.table, prev.drafts + r.drafts, prev.processed + 1, prev.pauses + if n < |cs| then 1 else 0)
      else Tick(r.table, prev.drafts + r.drafts, prev.processed, prev.pauses)
  }

  /** The tick after one more candidate, in terms of the step on it. */
  lemma RunNext(body: Body, t0: Database.Table, cs: seq<RssReader.FeedItem>, i: nat)
    requires i < |cs|
    ensures var prev := Run(body, t0, cs, i); var r := body(prev.table, cs[i]);
      Run(body, t0, cs, i + 1) ==
        Tick(r.table, prev.drafts + r.drafts,
             prev.processed + (if r.outcome.Processed? then 1 else 0),
             prev.pauses + (if r.outcome.Processed? && i + 1 < |cs| then 1 else 0))
  {
  }

  /** A draft names, through its button, a stored article that has a page. */
  predicate Publishable(t: Database.Table, d: Draft) {
    var id := TelegramBot.ParseCallback(d.callbackData);
    id.Some? && d.callbackData == TelegramBot.CallbackData(id.value) && TelegramBot.HasPage(t, id.value)
  }

  /** What one step from table `t` on `item` guarantees whatever the foreign calls answer. */
  predicate Keeps(t: Database.Table, item: RssReader.FeedItem, r: StepResult) {
    Database.ValidTable(r.table) &&
    (forall id :: id in t.rows ==> id in r.table.rows && r.table.rows[id] == t.rows[id]) &&
    (Database.Exists(t, item.link) ==> r == StepResult(t, [], KnownLink)) &&
    ((r.outcome.KnownLink? || r.outcome.ScrapeFailed? || r.outcome.HostingFailed?) ==> r.table == t && r.drafts == []) &&
    !r.outcome.InsertFailed? &&
    (r.outcome.Processed? ==> r.outcome.id !in t.rows && TelegramBot.HasPage(r.table, r.outcome.id)) &&
    (!r.outcome.Processed? ==> r.drafts == []) && |r.drafts| <= 1 &&
    (forall d :: d in r.drafts ==> Publishable(r.table, d))
  }

  /** A loop body that keeps `Keeps` on every valid table. */
  ghost predicate Sound(body: Body) {
    forall t, item :: Database.ValidTable(t) ==> Keeps(t, item, body(t, item))
  }

  /** The loop body of lines 55-188 is sound, whatever the calls answer. */
  lemma BodyOfSound(calls: Calls, today: int, now: Database.Stamp)
    ensures Sound(BodyOf(calls, today, now))
  {
    forall t, item | Database.ValidTable(t)
      ensures Keeps(t, item, BodyOf(calls, today, now)(t, item))
    {
      StepSound(calls, today, now, t, item);
    }
  }

  lemma StepSound(calls: Calls, today: int, now: Database.Stamp, t: Database.Table, item: RssReader.FeedItem)
    requires Database.ValidTable(t)
    ensures Keeps(t, item, Step(calls, today, now, t, item))
  {
    var r := Step(calls, today, now, t, item);
    StepKeepsValid(calls, today, now, t, item);
    if r.outcome.Processed? {
      ProcessedSpec(calls, today, now, t, item);
      forall d | d in r.drafts
        ensures Publishable(r.table, d)
      {
        assert TelegramBot.ParseCallback(d.callbackData) == Some(t.nextId);
      }
    }
  }

  /**
   * Every processed candidate but a last one is followed by a pause, and
   * drafts go out only for processed candidates.
   */
  lemma {:induction false} RunPauses(body: Body, t0: Database.Table, cs: seq<RssReader.FeedItem>, n: nat)
    requires Sound(body) && Database.ValidTable(t0) && n <= |cs|
    ensures var r := Run(body, t0, cs, n);
      Database.ValidTable(r.table) &&
      r.pauses <= r.processed <= r.pauses + 1 && r.processed <= n && |r.drafts| <= r.processed &&
      (n < |cs| ==> r.pauses == r.processed)
    decreases n
  {
    if n > 0 {
      RunPauses(body, t0, cs, n - 1);
      var prev := Run(body, t0, cs, n - 1);
      assert Keeps(prev.table, cs[n - 1], body(prev.table, cs[n - 1]));
    }
  }

  /**
   * A tick keeps the table valid, a row present after `m` candidates is
   * unchanged after any later one, and every draft delivered names a stored
   * article with a page.
   */
  lemma {:induction false} RunKeepsRows(body: Body, t0: Database.Table, cs: seq<RssReader.FeedItem>, m: nat, n: nat)
    requires Sound(body) && Database.ValidTable(t0) && m <= n <= |cs|
    ensures var a := Run(body, t0, cs, m); var b := Run(body, t0, cs, n);
      Database.ValidTable(b.table) &&
      (forall id :: id in a.table.rows ==> id in b.table.rows && b.table.rows[id] == a.table.rows[id]) &&
      (forall d :: d in a.drafts ==> Publishable(b.table, d))
    decreases n
  {
    if n > 0 {
      var prev := Run(body, t0, cs, n - 1);
      RunKeepsRows(body, t0, cs, if m == n then n - 1 else m, n - 1);
      var r := body(prev.table, cs[n - 1]);
      assert Keeps(prev.table, cs[n - 1], r);
      assert Run(body, t0, cs, n).table == r.table;
      assert Run(body, t0, cs, n).drafts == prev.drafts + r.drafts;
    }
  }

  /** Ticks repeat safely: candidates whose links are all stored change nothing and send nothing. */
  lemma {:induction false} StoredCandidatesSkipped(body: Body, t0: Database.Table, cs: seq<RssReader.FeedItem>, n: nat)
    requires Sound(body) && Database.ValidTable(t0) && n <= |cs|
    requires forall k :: 0 <= k < |cs| ==> Database.Exists(t0, cs[k].link)
    ensures Run(body, t0, cs, n) == Tick(t0, [], 0, 0)
    decreases n
  {
    if n > 0 {
      StoredCandidatesSkipped(body, t0, cs, n - 1);
      assert Keeps(t0, cs[n - 1], body(t0, cs[n - 1]));
    }
  }

  /**
   * Approving any draft a tick delivered posts its text without the source
   * footer; `BodyOfSound` supplies `Sound` for the loop body of a tick.
   */
  lemma {:induction false} ApprovalOfTickDraft(body: Body, t0: Database.Table, cs: seq<RssReader.FeedItem>, d: Draft)
    requires Sound(body) && Database.ValidTable(t0)
    requires d in Run(body, t0, cs, |cs|).drafts
    ensures var t := Run(body, t0, cs, |cs|).table;
      TelegramBot.HandlePublish(TelegramBot.Answered, d.callbackData, d.text, t, None) ==
        [TelegramBot.Publish(TelegramBot.PublishText(d.text)), TelegramBot.EditDraft(d.text + TelegramBot.PublishedNote)]
  {
    RunKeepsRows(body, t0, cs, |cs|, |cs|);
    ApprovalOfPublishable(Run(body, t0, cs, |cs|).table, d);
  }

  lemma ApprovalOfPublishable(t: Database.Table, d: Draft)
    requires Publishable(t, d)
    ensures TelegramBot.HandlePublish(TelegramBot.Answered, d.callbackData, d.text, t, None) ==
      [TelegramBot.Publish(TelegramBot.PublishText(d.text)), TelegramBot.EditDraft(d.text + TelegramBot.PublishedNote)]
  {
    TelegramBot.ApprovalPublishes(TelegramBot.ParseCallback(d.callbackData).value, d.text, t);
  }

  // ----- The four-argument insert (lines 103 and 152) -----

  /**
   * The tick as written: lines 103 and 152 pass a fourth argument (the image
   * URL, `None` at line 103) to the three-parameter `add_article_base`, so
   * the first candidate that reaches an insert raises `TypeError` before
   * anything is written, and the handler at line 195 ends the tick.
   */
  function RunAsWritten(body: Body, t: Database.Table, cs: seq<RssReader.FeedItem>): Tick
    decreases |cs|
  {
    if |cs| == 0 then Tick(t, [], 0, 0)
    else
      var r := body(t, cs[0]);
      if r.outcome.SemanticDuplicate? || r.outcome.InsertFailed? || r.outcome.Processed? then Tick(t, [], 0, 0)
      else RunAsWritten(body, r.table, cs[1..])
  }

  /** As written, a tick never stores a row, never sends a draft and never counts an article. */
  lemma {:induction false} AsWrittenNeverStores(body: Body, t: Database.Table, cs: seq<RssReader.FeedItem>)
    requires Sound(body) && Database.ValidTable(t)
    ensures RunAsWritten(body, t, cs) == Tick(t, [], 0, 0)
    decreases |cs|
  {
    if |cs| > 0 {
      assert Keeps(t, cs[0], body(t, cs[0]));
      AsWrittenNeverStores(body, t, cs[1..]);
    }
  }

  /**
   * A first candidate that the corrected tick processes, and whose page it
   * keeps, is lost by the tick as written, which leaves the table untouched.
   */
  lemma FirstArticleLostAsWritten(body: Body, t: Database.Table, cs: seq<RssReader.FeedItem>)
    requires Sound(body) && Database.ValidTable(t) && |cs| > 0
    requires body(t, cs[0]).outcome.Processed?
    ensures var id := body(t, cs[0]).outcome.id;
      id !in t.rows && TelegramBot.HasPage(Run(body, t, cs, |cs|).table, id) &&
      RunAsWritten(body, t, cs).table == t && !TelegramBot.HasPage(RunAsWritten(body, t, cs).table, id)
  {
    var r := body(t, cs[0]);
    assert Keeps(t, cs[0], r);
    assert Run(body, t, cs, 0).table == t;
    assert Run(body, t, cs, 1).table == r.table;
    RunKeepsRows(body, t, cs, 1, |cs|);
    AsWrittenNeverStores(body, t, cs);
  }

  // ----- Gathering the candidates (lines 33-48) -----

  /** Lines 36-44: the latest articles of every feed, feed by feed, in order. */
  function Candidates(fetchFeed: string -> RssReader.Feed, feeds: seq<string>, count: int): seq<RssReader.FeedItem>
    decreases |feeds|
  {
    if |feeds| == 0 then []
    else Candidates(fetchFeed, feeds[..|feeds| - 1], count) + RssReader.GetLatestArticles(fetchFeed(feeds[|feeds| - 1]), count)
  }

  /** At most `count` candidates come from each feed. */
  lemma {:induction false} CandidatesBound(fetchFeed: string -> RssReader.Feed, feeds: seq<string>, count: int)
    requires count >= 0
    ensures |Candidates(fetchFeed, feeds, count)| <= |feeds| * count
    decreases |feeds|
  {
    if |feeds| > 0 {
      var init := feeds[..|feeds| - 1];
      CandidatesBound(fetchFeed, init, count);
      var latest := RssReader.GetLatestArticles(fetchFeed(feeds[|feeds| - 1]), count);
      LatestAtMost(fetchFeed(feeds[|feeds| - 1]), count);
      assert |Candidates(fetchFeed, feeds, count)| == |Candidates(fetchFeed, init, count)| + |latest|;
      assert |init| * count + count == |feeds| * count by { MulSucc(|init|, count); }
    }
  }

  lemma MulSucc(a: nat, c: int)
    ensures a * c + c == (a + 1) * c
  {
  }

  lemma LatestAtMost(feed: RssReader.Feed, count: int)
    requires count >= 0
    ensures |RssReader.GetLatestArticles(feed, count)| <= count
  {
    if feed.bozo || |feed.entries| == 0 {
      RssReader.MalformedOrEmptyFeed(feed, count);
    } else {
      RssReader.LatestCount(feed, count);
    }
  }

  /** Every candidate is one of the latest articles of one of the feeds. */
  lemma {:induction false} CandidatesFromFeeds(fetchFeed: string -> RssReader.Feed, feeds: seq<string>, count: int, x: RssReader.FeedItem)
    requires x in Candidates(fetchFeed, feeds, count)
    ensures exists i :: 0 <= i < |feeds| && x in RssReader.GetLatestArticles(fetchFeed(feeds[i]), count)
    decreases |feeds|
  {
    var init := feeds[..|feeds| - 1];
    var last := RssReader.GetLatestArticles(fetchFeed(feeds[|feeds| - 1]), count);
    if x in Candidates(fetchFeed, init, count) {
      CandidatesFromFeeds(fetchFeed, init, count, x);
      var i :| 0 <= i < |init| && x in RssReader.GetLatestArticles(fetchFeed(init[i]), count);
      assert feeds[i] == init[i];
    } else {
      assert x in last;
    }
  }

  // ----- The feed list (line 37) -----

  /**
   * Line 37 as written: `RSS_FEEDS` is the raw string of `config.py`, so
   * `for feed_url in RSS_FEEDS` visits it one character at a time.
   */
  function FeedUrlsAsWritten(rssFeeds: string): seq<string> {
    seq(|rssFeeds|, i requires 0 <= i < |rssFeeds| => [rssFeeds[i]])
  }

  /** The feed URLs the setting evidently lists, separated by commas. */
  function FeedUrls(rssFeeds: string): seq<string> {
    SplitOn(rssFeeds, ",")
  }

  /**
   * A setting naming one feed of more than one character gives that feed
   * itself, while the loop as written fetches one "URL" per character.
   */
  lemma OneFeedSplitIntoCharacters(url: string)
    requires |url| > 1 && forall i :: 0 <= i < |url| ==> url[i] != ','
    ensures FeedUrls(url) == [url]
    ensures |FeedUrlsAsWritten(url)| == |url| && FeedUrlsAsWritten(url)[0] == [url[0]]
    ensures FeedUrlsAsWritten(url) != FeedUrls(url)
  {
    SplitWithoutSeparator(url, ',');
  }

  /**
   * The feed list has no comma in any URL, joining it back with commas gives
   * the setting, and the first URL is everything before the first comma.
   */
  lemma FeedUrlsSpec(rssFeeds: string, a: string, b: string)
    requires forall i :: 0 <= i < |a| ==> a[i] != ','
    ensures forall k :: 0 <= k < |FeedUrls(rssFeeds)| ==> !Contains(FeedUrls(rssFeeds)[k], ",")
    ensures JoinWith(FeedUrls(rssFeeds), ",") == rssFeeds
    ensures FeedUrls(a + "," + b) == [a] + FeedUrls(b)
  {
    SplitPiecesFree(rssFeeds, ",");
    ReplaceIsSplitJoin(rssFeeds, ",", ",");
    SplitAtFirst(a, ',', b);
  }

  // ----- The job itself -----

  /**
   * The process state the news job works on: `processing_lock` as a flag, the
   * article store, and the drafts delivered to the moderation channel so far.
   */
  class NewsBot {
    var locked: bool
    var outbox: seq<Draft>
    const store: Database.ArticleStore

    ghost predicate Valid()
      reads this, store
    {
      store.Valid()
    }

    constructor (store: Database.ArticleStore)
      requires store.Valid()
      ensures this.store == store && !locked && outbox == [] && Valid()
    {
      this.store := store;
      locked := false;
      outbox := [];
    }

    /** Lines 55-188 for one candidate, on the store. */
    method ProcessCandidate(calls: Calls, today: int, now: Database.Stamp, ghost body: Body, item: RssReader.FeedItem)
      returns (outcome: Outcome)
      requires Valid() && Implements(body, calls, today, now)
      modifies this, store
      ensures Valid() && locked == old(locked)
      ensures var r := body(old(store.Snapshot()), item);
        store.Snapshot() == r.table && outbox == old(outbox) + r.drafts && outcome == r.outcome
    {
      ghost var stepped := Step(calls, today, now, store.Snapshot(), item);
      assert body(store.Snapshot(), item) == stepped;
      var link := item.link;
      var known := store.ArticleExists(link);
      if known {
        return KnownLink;
      }
      var scraped := calls.scrape(link);
      if scraped.None? {
        return ScrapeFailed;
      }
      var content := scraped.value.article.contentHtml;
      var todays := store.GetTodaysArticlesContent(today);
      if !calls.isUnique(content, todays) {
        var _ := store.AddArticleBase(link, item.title, Sentinel, now);
        return SemanticDuplicate;
      }
      var (processed, titleP, descriptionP) := calls.rewrite(content);
      var page := calls.createPage(PageTitle(titleP), processed);
      if page.None? || page.value == "" {
        return HostingFailed;
      }
      var url := page.value;
      var finalTitle := FinalText(titleP, url);
      var finalDescription := FinalText(descriptionP, url);
      var id := store.AddArticleBase(link, finalTitle, processed, now);
      if id.None? {
        return InsertFailed;
      }
      store.UpdateArticleTranslation(id.value, processed, url);
      var draft := ModerationDraft(finalTitle, finalDescription, link, id.value);
      if calls.deliver(draft.text) {
        outbox := outbox + [draft];
      }
      outcome := Processed(id.value, url);
    }

    /**
     * Lines 54-188: each candidate in turn; a processed one counts, and is
     * followed by a pause unless it is the last.
     */
    method ProcessAll(calls: Calls, today: int, now: Database.Stamp, ghost body: Body, articles: seq<RssReader.FeedItem>)
      returns (processed: nat, pauses: nat)
      requires Valid() && Implements(body, calls, today, now)
      modifies this, store
      ensures Valid() && locked == old(locked)
      ensures var r := Run(body, old(store.Snapshot()), articles, |articles|);
        store.Snapshot() == r.table && outbox == old(outbox) + r.drafts && processed == r.processed && pauses == r.pauses
    {
      processed, pauses := 0, 0;
      ghost var t0 := store.Snapshot();
      ghost var drafts0 := outbox;
      for i := 0 to |articles|
        invariant Valid() && locked == old(locked)
        invariant var r := Run(body, t0, articles, i);
          store.Snapshot() == r.table && outbox == drafts0 + r.drafts && processed == r.processed && pauses == r.pauses
      {
        RunNext(body, t0, articles, i);
        var outcome := ProcessCandidate(calls, today, now, body, articles[i]);
        if outcome.Processed? {
          processed := processed + 1;
          if i + 1 < |articles| {
            pauses := pauses + 1;
          }
        }
      }
    }

    /**
     * `check_news_job()`: skipped while a tick holds the lock; otherwise the
     * candidates of every feed in `rssFeeds`, then each candidate in turn.
     * `processed` is `processed_count` and `pauses` the 5-second waits.
     */
    method CheckNewsJob(svc: Services, rssFeeds: string, count: int, today: int, now: Database.Stamp)
      returns (processed: nat, pauses: nat)
      requires Valid()
      modifies this, store
      ensures Valid() && locked == old(locked)
      ensures old(locked) ==>
        store.Snapshot() == old(store.Snapshot()) && outbox == old(outbox) && processed == 0 && pauses == 0
      ensures !old(locked) ==>
        var cs := Candidates(svc.fetchFeed, FeedUrls(rssFeeds), count);
        var r := Run(BodyOf(Bind(svc), today, now), old(store.Snapshot()), cs, |cs|);
        store.Snapshot() == r.table && outbox == old(outbox) + r.drafts && processed == r.processed && pauses == r.pauses
    {
      processed, pauses := 0, 0;
      if locked {
        return;
      }
      locked := true;
      var articles := GatherCandidates(svc.fetchFeed, FeedUrls(rssFeeds), count);
      if |articles| == 0 {
        locked := false;
        return;
      }
      BodyOfImplements(Bind(svc), today, now);
      processed, pauses := ProcessAll(Bind(svc), today, now, BodyOf(Bind(svc), today, now), articles);
      locked := false;
    }
  }

  /** Lines 36-44: the latest articles of each feed appended in feed order. */
  method GatherCandidates(fetchFeed: string -> RssReader.Feed, feeds: seq<string>, count: int)
    returns (articles: seq<RssReader.FeedItem>)
    ensures articles == Candidates(fetchFeed, feeds, count)
  {
    articles := [];
    for i := 0 to |feeds|
      invariant articles == Candidates(fetchFeed, feeds[..i], count)
    {
      var feedArticles := RssReader.GetLatestArticles(fetchFeed(feeds[i]), count);
      assert feeds[..i + 1][..i] == feeds[..i];
      if |feedArticles| > 0 {
        articles := articles + feedArticles;
      }
    }
    assert feeds[..|feeds|] == feeds;
  }
}
