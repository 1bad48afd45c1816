# RSS-View news bot, modelled in Dafny

The bot runs a periodic news job. For every configured RSS feed it takes the
newest entries. For each entry whose link is not stored yet, it takes these
steps:

1. Scrape the article.
2. Ask a language model whether the article repeats one of today's articles.
3. Have the model rewrite and translate it.
4. Have the model write a title and a description, with a placeholder where
   the page link belongs.
5. Publish the rewritten article as a Telegraph page.
6. Store the article in SQLite.
7. Send a draft with a "publish" button to a moderation channel.

Pressing the button posts the draft, minus its source line, to the public
channel.

The model has one module per source file:

| module | file | what it holds |
|---|---|---|
| `Config` | config.py | loading the settings and their errors |
| `RssReader` | rss_reader.py | the stable newest-first sort and Python's slice |
| `Database` | database.py | the `articles` table as a value, plus an `ArticleStore` class whose methods change it in place |
| `Scraper` | scraper.py | the document-order walk of the primary extractor, the fallback's post-processing, and the order of the two |
| `AiHandler` | ai_handler.py | the three model wrappers, with the service as a function |
| `TelegraphClient` | telegraph_client.py | the HTML cleaner |
| `TelegramBot` | telegram_bot.py | the draft, its callback data, and the publish handler |
| `Pipeline` | main.py | one candidate (`Step`), one tick (`Run`), and a `NewsBot` class for `check_news_job` with its lock, store and outbox |

Four modules support the others:

- `Wrappers` holds the `Option` type, standing for Python's `None` and for
  calls that fail.
- `Text` holds the Python string operations used.
- `Patterns` models every regular expression the code applies, together with
  `re.sub`, `re.findall` and `re.search` over them, as a left-to-right scan.
- `Markup` reads HTML text as pieces: runs of text without `<`, and tags
  with no `<` or `>` inside. On such text it states the tag passes of both
  cleaners tag by tag: which tags a pass removes, renames or keeps. It also
  proves what happens to a paragraph that holds text, only whitespace, or
  `&nbsp;`.

Foreign calls are parameters:

- the HTTP fetch and the HTML parser;
- trafilatura;
- `feedparser.parse`;
- the chat model and `json.loads`;
- Telegraph page creation;
- the Telegram send.

The clock reading and today's date are parameters too.

## Model

| member | source | states |
|---|---|---|
| Config.LoadConfigOkIff | config.py:13-28 | The configuration loads exactly when the count parses to an integer in 1..10 and all six required values are set and non-empty. The settings are then the environment's values. |
| Config.CountParsedFirst | config.py:13 | A count that `int()` rejects is the error raised, whatever else is missing. |
| Config.MissingBeforeRange | config.py:16-24 | A missing or empty required value is reported before the count's range is checked. |
| Config.DefaultCount | config.py:13 | Without `RSS_ARTICLES_COUNT` the count is 5. |
| Config.CountRange | config.py:26-28 | With every required value set, a count `n` loads exactly when 1 <= n <= 10. Otherwise the error is the range error. |
| Text.ParseIntOfIntToString | telegram_bot.py:52 | `int(str(n)) == n` for every integer. |
| Text.ReplaceIsSplitJoin | main.py:144-145 | `s.replace(p, u)` equals `u.join(s.split(p))`, and `p.join(s.split(p))` gives back `s`. |
| Text.TrimPunctStableIff | scraper.py:56 | Trimming a trimmed title again changes it exactly when it ends in punctuation. |
| Text.TrimPunctNotIdempotent | ai_handler.py:116 | `"abc. "` trims to `"abc."`, which trims again to `"abc"`: the trim is not idempotent. |
| Patterns.UnwrapPlaceholderAnchor | main.py:131 | In tag-free text, a placeholder link around a non-empty, single-line, tag-free text is replaced by that text, and the text around it is kept. |
| Patterns.LazyCloseFindsFirst | main.py:131 | The lazy `(.+?)</a>` ends at the first `</a>` when no newline or `<` lies before it. |
| Patterns.ParaTextsAreTagFree | scraper.py:215 | Every text found by `re.findall(r'<p>([^<]+)</p>', s)` is non-empty and has no `<`. |
| Patterns.ImgSrcIsQuoteFree | scraper.py:225 | The source captured by `re.search(r'<img src="([^"]+)"', s)` is non-empty and has no `"`. |
| Patterns.CollapseHeadingsNoLt | scraper.py:202-205 | Text without tags passes the heading rewrite unchanged. |
| Patterns.SubWithoutMatch | telegraph_client.py:15-44 | A substitution with nothing to match leaves the text unchanged. |
| TelegraphClient.TelegraphOutputShape | telegraph_client.py:9-46 | The cleaned HTML has no whitespace at either end and no newline. Every whitespace character is a single space. |
| TelegraphClient.SpaceRunCollapses | telegraph_client.py:43 | `re.sub(r'\s+', ' ', s)` leaves only single plain spaces and keeps a leading non-space character. |
| TelegraphClient.BlankLinePassIsNoop | telegraph_client.py:43-44 | The blank-line pass on line 44 never changes anything: line 43 has already removed every newline. |
| TelegraphClient.NormalizedShape | telegraph_client.py:43-46 | The last two rewrites and the strip give the output shape whatever they are fed. |
| TelegraphClient.StructureRemovalIsOnePass | telegraph_client.py:15-18 | The structure-tag removal is a single scan. `<<html>html>` leaves `<html>`, which the same pattern matches. |
| Markup.SubByTags | telegraph_client.py:15-38 | On well-formed text, a `re.sub` whose pattern matches one tag at a time rewrites each tag as its rule says and copies the text between tags. |
| Markup.RemovalPass | telegraph_client.py:15-18 | A pass that only removes single tags, run over the pieces kept so far, keeps exactly the pieces it does not match. |
| Markup.CollapseHeadingsByTags | telegraph_client.py:21-26 | The heading rewrite turns `h1`/`h2` tags into `h3` and `h5`/`h6` tags into `h4`, opening tags keeping their attributes, lower case only. Every other piece is kept in order. |
| Markup.CollapseHeadingsSettles | telegraph_client.py:21-26 | After the heading rewrite no `h1`, `h2`, `h5` or `h6` tag is left, and a second rewrite changes nothing. |
| Markup.CollapseHeadingsKeepsParagraph | telegraph_client.py:21-26 | The heading rewrite copies a paragraph and the tag-free text before it. |
| Markup.EmptyParaDropped | telegraph_client.py:41 | `<p>`, whitespace only, `</p>` after tag-free text is removed, and the scan goes on after it. This holds with and without `re.IGNORECASE`. |
| Markup.TextParaKept | telegraph_client.py:41 | A paragraph whose text has a character other than whitespace passes the empty-paragraph rewrite unchanged. |
| Markup.NbspParaDropped | telegraph_client.py:42 | `<p>`, whitespace, `&nbsp;`, whitespace, `</p>` after tag-free text is removed. |
| Markup.TextParaKeptByNbsp | telegraph_client.py:42 | A paragraph whose text opens with a character other than whitespace or `&` passes the `&nbsp;` rewrite unchanged. |
| TelegraphClient.StructureTagsRemoved | telegraph_client.py:15-18 | On well-formed text the four passes remove exactly the tags their patterns name and keep every other piece in order. |
| TelegraphClient.DocumentTagRemovedIff | telegraph_client.py:15-18 | A tag is removed exactly when its body is `NAME...` or `/NAME...`, in any case, for `html`, `head`, `body` or `doctype`. |
| TelegraphClient.StructureRemovalSettles | telegraph_client.py:15-18 | On well-formed text a second run of the structure passes changes nothing. |
| TelegraphClient.WrappersRemoved | telegraph_client.py:29-32 | On well-formed text the wrapper loop removes exactly the opening and closing tags of the listed elements and keeps everything between them. |
| TelegraphClient.WrapperTagRemovedIff | telegraph_client.py:29-32 | A tag is removed exactly when its body starts with a listed name, in any case, or is exactly `/NAME` for a listed name. |
| TelegraphClient.WrapperUnwrapped | telegraph_client.py:29-32 | A listed element with any attributes around tag-free text, such as `<div class="x">text</div>`, becomes its text. |
| TelegraphClient.TagPassesByPieces | telegraph_client.py:15-32 | On well-formed text, lines 15-32 remove the structure tags, rename the low headings and remove the wrappers. Everything else is kept in order. |
| TelegraphClient.TagPassesLeaveSupportedTags | telegraph_client.py:15-32 | After lines 15-32 no tag is an `h1`, `h2`, `h5` or `h6` tag or one the wrapper loop removes. |
| TelegraphClient.AttributesPass | telegraph_client.py:35 | On well-formed text the attribute pass rewrites each tag by its own rule and copies the text between tags. |
| TelegraphClient.AttributesDropped | telegraph_client.py:35 | A tag whose name is one of the eleven, in any case, followed by whitespace loses everything after its name: `<P class="x">` becomes `<P>`. |
| TelegraphClient.ImgTagKeepsSrc | telegraph_client.py:37-38 | After tag-free text, `<img` + attributes + `src="u"` + more attributes + `>` becomes `<img src="u">`. The attributes may be quoted, as in `<img src="u" alt="x">`, provided that no `src="` (in any case) starts after the source. |
| TelegraphClient.SimplifyDropsEmptyParagraph | telegraph_client.py:35-42 | Lines 35-42 remove a paragraph holding only whitespace and clean what follows as before. |
| TelegraphClient.SimplifyDropsNbspParagraph | telegraph_client.py:35-42 | Lines 35-42 remove a paragraph holding only `&nbsp;` between whitespace. |
| TelegraphClient.SimplifyKeepsParagraph | telegraph_client.py:35-42 | Lines 35-42 keep a paragraph whose text opens with something other than whitespace or `&`. |
| TelegraphClient.TelegraphDropsEmptyParagraph | telegraph_client.py:15-46 | An empty paragraph after tag-free text makes no difference to the cleaned page. |
| TelegraphClient.TelegraphDropsNbspParagraph | telegraph_client.py:15-46 | A paragraph holding only `&nbsp;` after tag-free text makes no difference to the cleaned page. |
| Scraper.ScrapeWithBeautifulSoup | scraper.py:45-134 | The element loop computes exactly `PrimaryResult`: content, short description, seen set and main image, visited in document order. |
| Scraper.PrimaryResultSpec | scraper.py:53-134 | Primary extraction fails exactly when there is no container, or when no element of it passes the text or image filters. On success the content is not blank, the image is the first accepted one, the description comes from the first kept paragraph, and the title is the trimmed `<h1>`. |
| Scraper.MainImageIsFirstAccepted | scraper.py:108-124 | The main image is the first image the filter accepts anywhere in the container. |
| Scraper.SeenIsAcceptedSources | scraper.py:113-122 | The seen set is exactly the set of accepted image sources of the container. |
| Scraper.DescriptionIsFirst | scraper.py:95-104 | The short description comes from the first kept paragraph that yields a non-empty one. |
| Scraper.ContentEmptyIff | scraper.py:94-127 | The walk emits no content exactly when no element survives its filters. |
| Scraper.ContentIsBlocks | scraper.py:94-127 | The content is the blocks of the elements joined in document order. Each kept paragraph and heading gives its block, and each accepted image gives one at the first accepted element with its source. |
| Scraper.ImagesEmittedOnce | scraper.py:113-122 | No two emitted images share a source, and every accepted source is emitted at or before its element. |
| Scraper.DescriptionShape | scraper.py:100-104 | A description has at most 303 characters. It ends in `...` when the text was cut, and is otherwise the trimmed text. |
| Scraper.FirstFound | scraper.py:59-67 | The container is the first candidate found in preference order; no candidate found means none. |
| Scraper.CleanTrafilaturaHtml | scraper.py:191-211 | The cleaned fallback HTML has no whitespace at either end. |
| Scraper.TrafilaturaByTags | scraper.py:193-209 | On well-formed text the fallback cleaner removes the `html`, `head` and `body` tags, renames `h1`/`h2` to `h3` and `h5`/`h6` to `h4`, then removes empty paragraphs and strips the ends. Everything else is kept in order. |
| Scraper.TrafilaturaHeadingsRenamed | scraper.py:202-205 | After the heading rewrite no tag is an `h1`, `h2`, `h5` or `h6` tag. |
| Scraper.TrafilaturaDropsEmptyParagraph | scraper.py:208 | An empty paragraph after tag-free text makes no difference to the cleaned result. |
| Scraper.CleanTrafilaturaTagFree | scraper.py:191-211 | Text without tags is only stripped by the fallback cleaner. |
| Scraper.ShortDescriptionBound | scraper.py:213-221 | The fallback's description has at most 303 characters. |
| Scraper.ShortDescriptionNeedsLongParagraph | scraper.py:215-221 | Without a paragraph of more than 50 stripped characters the description is empty. |
| Scraper.EllipsisWithoutCut | scraper.py:217-220 | A paragraph padded with whitespace to more than 300 characters gets `...` although nothing was cut. |
| Scraper.MainImageSpec | scraper.py:223-229 | The fallback's image is the first `<img src>` of the HTML when that source is not denylisted. A denylisted first source gives no image. |
| Scraper.FirstImageDecides | scraper.py:225-229 | A denylisted first image hides every later image. |
| Scraper.FallbackContentMayBeEmpty | scraper.py:162-185 | The fallback can succeed with empty content: the emptiness test comes before the cleaning. |
| Scraper.ScrapeOrder | scraper.py:7-43 | Nothing comes back without a fetched page. The primary result wins. The fallback runs only when the primary finds nothing, and only the fallback can return blank content. |
| RssReader.SortDescSorted | rss_reader.py:27 | The sorted entries are most recent first. |
| RssReader.SortDescPermutes | rss_reader.py:27 | The sort is a permutation of the entries. |
| RssReader.SortDescStable | rss_reader.py:27 | Entries with equal keys keep their feed order. |
| RssReader.TakePy | rss_reader.py:30 | `s[:count]` is a prefix of length `min(count, len)`, or `max(len + count, 0)` for a negative count. |
| RssReader.GetLatestArticles | rss_reader.py:32-39 | Each returned record carries the title and link of the chosen entry at the same position. |
| RssReader.MalformedOrEmptyFeed | rss_reader.py:18-24 | A malformed feed or a feed without entries yields no articles. |
| RssReader.LatestCount | rss_reader.py:27-30 | A well-formed feed yields `min(count, number of entries)` articles. |
| RssReader.LatestAreNewest | rss_reader.py:27-30 | The chosen entries are feed entries, most recent first. No entry newer than a chosen one is left out. |
| RssReader.UndatedLast | rss_reader.py:27 | An undated entry never precedes a dated entry with a positive year. |
| RssReader.LatestKeepFeedOrder | rss_reader.py:27-30 | Among entries with the same date, the chosen ones are the first in feed order. |
| Database.AddArticleSpec | database.py:25-40 | An insert keeps the table valid and fails exactly on a URL already present, which leaves the table unchanged. A success adds one row with the new id. |
| Database.AddThenById | database.py:90-102 | After an insert the new row is found by its id, without translation or page. |
| Database.UpdateSpec | database.py:42-52 | An update sets only the translation and page URL of that id's row. An absent id changes nothing. |
| Database.UpdateKeepsUrls | database.py:54-61 | Whether a URL exists is unaffected by an update. |
| Database.AddUpdateById | database.py:25-52 | Inserting, then updating by the returned id, makes the lookup show the translation and the page. |
| Database.FirstWithTelegraphUrlSpec | database.py:83-84 | The lookup by page URL returns the lowest matching id, or none when no row carries that URL. |
| Database.ByTelegraphUrlSpec | database.py:79-88 | The lookup by page URL succeeds exactly when some row carries that URL, and returns its title. |
| Database.TodayIdsShape | database.py:68-74 | The query returns at most `LIMIT` rows of today with content, newest first. |
| Database.TodayIdsComplete | database.py:68-74 | A qualifying row is left out only when the limit was reached with newer rows. |
| Database.TodaysIdsSpec | database.py:63-77 | At most 5 of today's rows with content, ordered by `created_at` descending when stamps follow ids. A qualifying row is left out only when 5 newer ones were returned. |
| Database.AddKeepsStampOrder | database.py:18 | Under a clock that does not run back, an insert keeps stamps in id order. |
| Database.ArticleStore.constructor | database.py:6-23 | `init_db` gives an empty, valid table whose first id is 1. |
| Database.ArticleStore.AddArticleBase | database.py:25-40 | The store's new state and the returned id are those of `AddArticle`. Validity is kept. |
| Database.ArticleStore.UpdateArticleTranslation | database.py:42-52 | The store's new state is that of `UpdateTranslation`. Validity is kept. |
| Database.ArticleStore.ArticleExists | database.py:54-61 | The method returns true exactly when some row has that URL. |
| Database.ArticleStore.GetArticleById | database.py:90-102 | Found exactly when a row has that id. The view then carries that row's title, page URL and translation. |
| Database.ArticleStore.GetArticleByTelegraphUrl | database.py:79-88 | Found exactly when some row carries that page URL. The view then carries that URL and the title of the lowest such id. |
| Database.ArticleStore.GetTodaysArticlesContent | database.py:63-77 | The downward scan returns the contents of `TodaysIds`, in that order. |
| AiHandler.UniqueWithoutComparison | ai_handler.py:25-26 | With no articles to compare against, the article is unique without any call. |
| AiHandler.UniqueFailsOpen | ai_handler.py:28-48 | A missing prompt or a failed call counts as unique. |
| AiHandler.DuplicateOnlyOnAnswer | ai_handler.py:21-48 | A duplicate verdict needs existing articles, a prompt, and an answer that does not mention `UNIQUE`. |
| AiHandler.MentionCountsAsUnique | ai_handler.py:43-44 | Any answer that mentions `UNIQUE` counts as unique. |
| AiHandler.NotUniqueCountsAsUnique | ai_handler.py:43-44 | The answer `NOT UNIQUE` is read as unique. |
| AiHandler.StripFences | ai_handler.py:74-82 | The processed reply has no whitespace at either end. |
| AiHandler.ProcessFailsOpen | ai_handler.py:55-86 | A missing prompt or a failed call returns the input content unchanged. |
| AiHandler.ContextSectionIff | ai_handler.py:60-63 | The context section is added exactly when the context is not blank, and then ends the message. |
| AiHandler.FenceRoundTrip | ai_handler.py:76-82 | A reply fenced as an HTML code block comes back as its stripped body. |
| AiHandler.UnfencedReply | ai_handler.py:74-82 | A reply without fences is only stripped. |
| AiHandler.TitleAndDescriptionSpec | ai_handler.py:89-126 | No prompt, a failed call or an unparsable reply gives the defaults. Otherwise each key the reply has becomes its value with trailing punctuation and then whitespace trimmed, and each key it lacks stays absent. |
| TelegramBot.CallbackRoundTrip | telegram_bot.py:52 | The button data `pub_<id>` decodes back to the id. |
| TelegramBot.FilterSourceFooter | telegram_bot.py:73-81 | The filter loop computes `PublishText`: the non-source lines, joined and stripped. |
| TelegramBot.KeepLinesSpec | telegram_bot.py:75-78 | The loop keeps exactly the lines that are not source lines: none is dropped and none is invented. |
| TelegramBot.KeepLinesAppend | telegram_bot.py:75-78 | Filtering two runs of lines one after the other is filtering each and joining the results. |
| TelegramBot.KeepLinesFront | telegram_bot.py:75-78 | Read from the front, each line is kept or dropped on its own, so order and repeated lines are kept. |
| TelegramBot.DraftLines | telegram_bot.py:22 | A draft of single-line parts splits into title, blank, description, blank, source line. |
| TelegramBot.PublishedDraft | telegram_bot.py:73-81 | Publishing a draft posts its title line, a blank line and the description: exactly the source line is gone. |
| TelegramBot.PostIff | telegram_bot.py:33-112 | A public post happens exactly when all of these hold: the query was answered or had only expired; the data starts with `pub_` and decodes; the article has a page; the post succeeded. It is then followed only by the approval note. |
| TelegramBot.ApprovalPublishes | telegram_bot.py:50-97 | Pressing the button of a stored article with a page posts the filtered draft and marks the draft as published. |
| TelegramBot.MissingArticleNotPosted | telegram_bot.py:58-65 | A missing article, or one without a page, only gets the not-found note. |
| TelegramBot.BadIdNotPosted | telegram_bot.py:99-105 | Data after `pub_` that is not an integer only gets the invalid-id note. |
| TelegramBot.RepeatedApprovalPostsAgain | telegram_bot.py:50-97 | Nothing records an approval: pressing the button on an approved draft posts again. |
| Pipeline.KnownLinkSkipped | main.py:62-64 | A stored link changes nothing and sends nothing, and no service call is consulted. |
| Pipeline.ScrapeFailureWritesNothing | main.py:76-79 | A failed scrape writes no row and sends nothing. |
| Pipeline.DuplicateStoresSentinel | main.py:95-105 | A duplicate is stored under its link and feed title with the sentinel content, and nothing is sent. The rewrite and page calls are not consulted. |
| Pipeline.SentinelCountsToday | main.py:95-105 | A duplicate stored today is among the rows that today's duplicate checks read. |
| Pipeline.HostingFailureWritesNothing | main.py:135-139 | Without a page URL, nothing is written and nothing is sent. |
| Pipeline.StoreSpec | main.py:150-183 | The article is inserted under the next id, then updated by that id with the content and page URL. Any draft carries the final title and description and that id's button. |
| Pipeline.ProcessedSpec | main.py:62-183 | A processed candidate was new and has a non-empty page URL. Its row is the new id's, with the link and page, and every draft's button decodes to that id. |
| Pipeline.SendFailureKeepsWrites | main.py:174-178 | A failed moderation send changes neither what is stored nor the outcome. |
| Pipeline.StepKeepsValid | main.py:55-188 | A step keeps the table valid and leaves every existing row unchanged. Afterwards the link is stored exactly when it was known, a duplicate, or processed. |
| Pipeline.PlaceholderReplaced | main.py:144-145 | The final text is the placeholder-free pieces joined by the URL. Putting the placeholder back gives the original. |
| Pipeline.PageTitleUnwraps | main.py:131 | The page title keeps the linked words and drops the placeholder link around them. |
| Pipeline.BodyOfSound | main.py:55-188 | The loop body meets `Keeps` from every valid table, whatever the services answer. |
| Pipeline.RunPauses | main.py:183-188 | Every processed candidate except a last one is followed by a pause. Drafts go out only for processed candidates, and the table stays valid. |
| Pipeline.RunKeepsRows | main.py:54-188 | A row present after some candidate is unchanged at the end of the tick, and every draft of the tick names a stored article with a page. |
| Pipeline.StoredCandidatesSkipped | main.py:61-64 | A tick whose candidates are all stored changes nothing and sends nothing. |
| Pipeline.ApprovalOfTickDraft | main.py:152-175 | Approving any draft a tick delivered posts its text without the source line. |
| Pipeline.AsWrittenNeverStores | main.py:103 | As written, a tick never stores a row, sends a draft or counts an article. |
| Pipeline.FirstArticleLostAsWritten | main.py:152 | A first candidate that the corrected tick stores with a page is lost as written. |
| Pipeline.CandidatesBound | main.py:36-44 | A tick has at most `count` candidates per feed. |
| Pipeline.CandidatesFromFeeds | main.py:36-44 | Every candidate is one of the latest articles of one of the feeds. |
| Pipeline.GatherCandidates | main.py:36-44 | The feed loop collects exactly `Candidates`: each feed's latest articles, in feed order. |
| Pipeline.OneFeedSplitIntoCharacters | main.py:37 | A setting that names one feed gives that feed, while the loop as written visits one character at a time. |
| Pipeline.FeedUrlsSpec | main.py:37 | No feed URL contains a comma, joining them with commas gives the setting back, and the first URL is the text before the first comma. |
| Pipeline.NewsBot.constructor | main.py:14 | The job starts unlocked with an empty outbox. |
| Pipeline.NewsBot.ProcessCandidate | main.py:55-188 | The store and outbox change exactly as the loop body says, and the outcome is the body's. |
| Pipeline.NewsBot.ProcessAll | main.py:54-188 | The store, outbox, count and pauses end as `Run` over all candidates says. |
| Pipeline.NewsBot.CheckNewsJob | main.py:16-198 | While locked, nothing changes. Otherwise the new state is that of `Run` over the candidates of every feed, and the lock is released. |

## Left out

- `scheduler_loop`, `heartbeat` and `main()` are left out: they are wall-clock timing and task wiring. `main.py:11` imports `CHECK_INTERVAL_SECONDS`, which config.py does not define, so importing main.py as written fails. The scheduler that uses it is not part of this model.
- `processing_lock` is a flag checked on entry. Concurrency between ticks and the moderation handler is not modelled.
- A `check_news_job` tick uses one clock reading for every insert. SQLite's `CURRENT_TIMESTAMP` and the local-date conversion are the `Stamp` parameter.
- Database.ArticleStore.GetArticleByTelegraphUrl: the query at database.py:83 has no `ORDER BY`, so SQLite does not fix which matching row comes first. The model takes the lowest id.
- Database.TodaysIdsSpec: SQLite does not fix the order among rows with equal `created_at`. The model takes the highest id first.
- The HTTP fetch, BeautifulSoup, trafilatura, `feedparser.parse`, the OpenAI calls, `json.loads` and `telegraph.create_page` are functions given to the model. Their internals and exceptions beyond `None` or a failure value are not modelled.
- AiHandler.TitleAndDescriptionSpec: a JSON reply that is not an object, or whose fields are not strings, is not modelled.
- Text.ParseIntOfIntToString: `int()` accepts only ASCII digits here. Python also accepts other Unicode decimal digits.
- `upper()`, `lower()` and `re.IGNORECASE` are ASCII-only here.
- `\s` and `strip()` use the ASCII whitespace set.
- Image URLs are not stored. `add_article_base` defines no column for them.
- The Telegram transport and the bot's start and stop are not modelled. Among the exceptions of `handle_publish_callback`, only a failed public post is modelled: its message ends the edit.
- Feed entries without a title or link are not modelled. feedparser's missing-key behaviour is outside the model.
- Pipeline.FirstArticleLostAsWritten: the Telegraph page created before the failing insert is a side effect outside the model.
- Markup.SubByTags and the lemmas built on it hold for well-formed text only: no `<` inside a tag. Text with a nested `<`, such as `<<html>html>`, is covered only by TelegraphClient.StructureRemovalIsOnePass.
- Markup.EmptyParaDropped and the other paragraph lemmas need tag-free text before the paragraph. Text between tags is not scanned there.
- TelegraphClient.ImgTagKeepsSrc: it leaves out three cases.
  - A source that ends in `src=`: the greedy `[^>]*` then stops at the `src="` inside it, and the kept source is cut to `""`.
  - A later attribute such as `data-src="y"`: the regex then keeps `y`.
  - A source containing `>`.
- TelegraphClient.SimplifyKeepsParagraph: it leaves out text that opens with `&`, since the `&nbsp;` pattern then has to be followed further.
- Pipeline.CheckNewsJob: exceptions raised by the services would be caught at main.py:195 and end the tick. The model's services are total.

## Findings

| source | as written | input that shows it | evidently intended | confidence | as-written member | corrected member |
|---|---|---|---|---|---|---|
| main.py:152 | `add_article_base` is called with four arguments (also at main.py:103), but database.py:25 takes three. The `TypeError` is caught at main.py:195 and ends the tick before anything is stored. | Any tick whose first new, unique candidate gets a page URL. | Store the row with the three fields `add_article_base` defines, then continue. | not executed | Pipeline.FirstArticleLostAsWritten | Pipeline.RunKeepsRows |
| main.py:37 | `for feed_url in RSS_FEEDS` iterates the string from config.py:9 one character at a time. | `RSS_FEEDS = "https://example.org/rss"` gives the feed URLs `"h"`, `"t"`, ... | A list of feed URLs; the model takes them to be separated by commas. | not executed | Pipeline.OneFeedSplitIntoCharacters | Pipeline.FeedUrlsSpec |
