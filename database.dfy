/**
 * The `articles` table (database.py): rows keyed by an autoincrement id, with
 * a unique `original_url`. The SQLite engine is not modelled; the table is a
 * map from id to row and a counter for the next id, and the clock reading
 * that fills `created_at` is a parameter.
 */
module Database {
  import opened Wrappers

  /** A `created_at` reading: the instant, and the local calendar day it falls on. */
  datatype Stamp = Stamp(instant: int, localDay: int)

  /** One row; the nullable columns are options. */
  datatype Row = Row(
    originalUrl: string, title: string, originalContent: Option<string>,
    translatedContent: Option<string>, telegraphUrl: Option<string>, createdAt: Stamp)

  /** The table: its rows and the id the next insert receives. */
  datatype Table = Table(rows: map<int, Row>, nextId: int)

  /** What `get_article_by_id` returns. */
  datatype ArticleView = ArticleView(id: int, title: string, telegraphUrl: Option<string>, translatedContent: Option<string>)

  /** What `get_article_by_telegraph_url` returns. */
  datatype TelegraphView = TelegraphView(title: string, telegraphUrl: string)

  /** `CREATE TABLE`: an empty table whose first id is 1. */
  const Empty: Table := Table(map[], 1)

  /** Ids are positive and below the counter, and `original_url` is `UNIQUE`. */
  predicate ValidTable(t: Table) {
    t.nextId >= 1 &&
    (forall id :: id in t.rows ==> 1 <= id < t.nextId) &&
    (forall a, b :: a in t.rows && b in t.rows && t.rows[a].originalUrl == t.rows[b].originalUrl ==> a == b)
  }

  /** `article_exists(original_url)` */
  predicate Exists(t: Table, url: string) {
    exists id :: id in t.rows && t.rows[id].originalUrl == url
  }

  /**
   * `add_article_base(original_url, title, original_content)`: a new URL gets
   * the next id; a URL already present violates `UNIQUE`, and the insert is
   * rolled back and reported as `None`.
   */
  function AddArticle(t: Table, url: string, title: string, content: string, now: Stamp): (Table, Option<int>) {
    if Exists(t, url) then (t, None)
    else (Table(t.rows[t.nextId := Row(url, title, Some(content), None, None, now)], t.nextId + 1), Some(t.nextId))
  }

  /** `update_article_translation(article_id, translated_content, telegraph_url)` */
  function UpdateTranslation(t: Table, id: int, translated: string, telegraphUrl: string): Table {
    if id in t.rows then
      Table(t.rows[id := t.rows[id].(translatedContent := Some(translated), telegraphUrl := Some(telegraphUrl))], t.nextId)
    else t
  }

  /** `get_article_by_id(article_id)` */
  function ById(t: Table, id: int): Option<ArticleView> {
    if id in t.rows then
      var row := t.rows[id];
      Some(ArticleView(id, row.title, row.telegraphUrl, row.translatedContent))
    else None
  }

  /** The smallest id in `lo..hi` whose row carries `telegraph_url == u`. */
  function FirstWithTelegraphUrl(t: Table, u: string, lo: int, hi: int): (r: Option<int>)
    ensures r.Some? ==> lo <= r.value < hi && r.value in t.rows && t.rows[r.value].telegraphUrl == Some(u)
    decreases hi - lo
  {
    if lo >= hi then None
    else if lo in t.rows && t.rows[lo].telegraphUrl == Some(u) then Some(lo)
    else FirstWithTelegraphUrl(t, u, lo + 1, hi)
  }

  /** `get_article_by_telegraph_url(telegraph_url)`, taking the first row in id order. */
  function ByTelegraphUrl(t: Table, u: string): Option<TelegraphView> {
    match FirstWithTelegraphUrl(t, u, 1, t.nextId)
    case None => None
    case Some(id) => Some(TelegraphView(t.rows[id].title, u))
  }

  /** A row counted by `get_todays_articles_content`: created on `today`, with content. */
  predicate Qualifies(t: Table, today: int, id: int) {
    id in t.rows && t.rows[id].createdAt.localDay == today && t.rows[id].originalContent.Some?
  }

  /** The ids of up to `limit` qualifying rows below `hi`, newest id first. */
  function TodayIds(t: Table, today: int, hi: int, limit: nat): seq<int>
    decreases hi
  {
    if limit == 0 || hi <= 1 then []
    else if Qualifies(t, today, hi - 1) then [hi - 1] + TodayIds(t, today, hi - 1, limit - 1)
    else TodayIds(t, today, hi - 1, limit)
  }

  /** The ids behind `get_todays_articles_content()`: `LIMIT 5`. */
  function TodaysIds(t: Table, today: int): seq<int> {
    TodayIds(t, today, t.nextId, 5)
  }

  /** The contents of the given qualifying rows. */
  function ContentsOf(t: Table, today: int, ids: seq<int>): seq<string>
    requires forall k :: 0 <= k < |ids| ==> Qualifies(t, today, ids[k])
  {
    seq(|ids|, k requires 0 <= k < |ids| && Qualifies(t, today, ids[k]) => t.rows[ids[k]].originalContent.value)
  }

  // ----- Lemmas about the table -----

  /** An insert keeps the table valid; it fails exactly on a present URL, and then changes nothing. */
  lemma AddArticleSpec(t: Table, url: string, title: string, content: string, now: Stamp)
    requires ValidTable(t)
    ensures var (t', id) := AddArticle(t, url, title, content, now);
      ValidTable(t') && Exists(t', url) &&
      (id.None? <==> Exists(t, url)) &&
      (id.None? ==> t' == t) &&
      (id.Some? ==> id.value !in t.rows && t'.rows == t.rows[id.value := Row(url, title, Some(content), None, None, now)])
  {
    var (t', id) := AddArticle(t, url, title, content, now);
    if id.Some? {
      assert t'.rows[id.value].originalUrl == url;
      assert forall a :: a in t.rows ==> t.rows[a].originalUrl != url;
      assert forall a :: a in t'.rows && a != t.nextId ==> t'.rows[a] == t.rows[a];
    }
  }

  /** After an insert the new row is found by its id, without translation or page yet. */
  lemma AddThenById(t: Table, url: string, title: string, content: string, now: Stamp)
    requires ValidTable(t) && !Exists(t, url)
    ensures var (t', id) := AddArticle(t, url, title, content, now);
      id.Some? && ById(t', id.value) == Some(ArticleView(id.value, title, None, None))
  {
  }

  /**
   * An update touches only the translation and the page URL of the row with
   * that id; other rows, the other columns and the counter stay, and an
   * absent id changes nothing.
   */
  lemma UpdateSpec(t: Table, id: int, translated: string, u: string)
    requires ValidTable(t)
    ensures var t' := UpdateTranslation(t, id, translated, u);
      ValidTable(t') && t'.nextId == t.nextId && t'.rows.Keys == t.rows.Keys &&
      (forall other :: other in t.rows && other != id ==> t'.rows[other] == t.rows[other]) &&
      (id in t.rows ==> t'.rows[id] == t.rows[id].(translatedContent := Some(translated), telegraphUrl := Some(u))) &&
      (id !in t.rows ==> t' == t)
  {
    var t' := UpdateTranslation(t, id, translated, u);
    forall a, b | a in t'.rows && b in t'.rows && t'.rows[a].originalUrl == t'.rows[b].originalUrl
      ensures a == b
    {
      assert t'.rows[a].originalUrl == t.rows[a].originalUrl;
      assert t'.rows[b].originalUrl == t.rows[b].originalUrl;
    }
  }

  /** Existence of a URL is not affected by an update. */
  lemma UpdateKeepsUrls(t: Table, id: int, translated: string, u: string, url: string)
    ensures Exists(UpdateTranslation(t, id, translated, u), url) <==> Exists(t, url)
  {
    var t' := UpdateTranslation(t, id, translated, u);
    if Exists(t, url) {
      var k :| k in t.rows && t.rows[k].originalUrl == url;
      assert t'.rows[k].originalUrl == url;
    }
    if Exists(t', url) {
      var k :| k in t'.rows && t'.rows[k].originalUrl == url;
      assert t.rows[k].originalUrl == url;
    }
  }

  /** Insert, then update by the returned id: the lookup shows the translation and the page. */
  lemma AddUpdateById(t: Table, url: string, title: string, content: string, now: Stamp, translated: string, u: string)
    requires ValidTable(t) && !Exists(t, url)
    ensures var (t1, id) := AddArticle(t, url, title, content, now);
      id.Some? &&
      ById(UpdateTranslation(t1, id.value, translated, u), id.value) == Some(ArticleView(id.value, title, Some(u), Some(translated)))
  {
  }

  lemma {:induction false} FirstWithTelegraphUrlSpec(t: Table, u: string, lo: int, hi: int)
    ensures var r := FirstWithTelegraphUrl(t, u, lo, hi);
      (r.Some? ==> (lo <= r.value < hi && r.value in t.rows && t.rows[r.value].telegraphUrl == Some(u) &&
                    forall id :: lo <= id < r.value ==> !(id in t.rows && t.rows[id].telegraphUrl == Some(u)))) &&
      (r.None? ==> forall id :: lo <= id < hi ==> !(id in t.rows && t.rows[id].telegraphUrl == Some(u)))
    decreases hi - lo
  {
    if lo < hi {
      FirstWithTelegraphUrlSpec(t, u, lo + 1, hi);
    }
  }

  /** A lookup by page URL finds a row exactly when one carries that URL, and returns its title. */
  lemma ByTelegraphUrlSpec(t: Table, u: string)
    requires ValidTable(t)
    ensures ByTelegraphUrl(t, u).Some? <==> exists id :: id in t.rows && t.rows[id].telegraphUrl == Some(u)
    ensures ByTelegraphUrl(t, u).Some? ==>
      ByTelegraphUrl(t, u).value.telegraphUrl == u &&
      exists id :: id in t.rows && t.rows[id].telegraphUrl == Some(u) && t.rows[id].title == ByTelegraphUrl(t, u).value.title
  {
    FirstWithTelegraphUrlSpec(t, u, 1, t.nextId);
  }

  /** Up to `limit` qualifying ids below `hi`, each qualifying, in strictly decreasing order. */
  lemma {:induction false} TodayIdsShape(t: Table, today: int, hi: int, limit: nat)
    ensures var r := TodayIds(t, today, hi, limit);
      |r| <= limit &&
      (forall k :: 0 <= k < |r| ==> 1 <= r[k] < hi && Qualifies(t, today, r[k])) &&
      (forall j, k :: 0 <= j < k < |r| ==> r[j] > r[k])
    decreases hi
  {
    if limit != 0 && hi > 1 {
      TodayIdsShape(t, today, hi - 1, if Qualifies(t, today, hi - 1) then limit - 1 else limit);
    }
  }

  /** A qualifying row left out is older than every row returned, and the limit was reached. */
  lemma {:induction false} TodayIdsComplete(t: Table, today: int, hi: int, limit: nat, id: int)
    requires 1 <= id < hi && Qualifies(t, today, id)
    requires id !in TodayIds(t, today, hi, limit)
    ensures |TodayIds(t, today, hi, limit)| == limit
    ensures forall c :: c in TodayIds(t, today, hi, limit) ==> id < c
    decreases hi
  {
    if limit != 0 {
      var q := Qualifies(t, today, hi - 1);
      var rest := TodayIds(t, today, hi - 1, if q then limit - 1 else limit);
      assert id != hi - 1;
      TodayIdsComplete(t, today, hi - 1, if q then limit - 1 else limit, id);
    }
  }

  /** Stamps that do not go back in time as ids grow: what `CURRENT_TIMESTAMP` on insert gives. */
  predicate StampsFollowIds(t: Table) {
    forall a, b :: a in t.rows && b in t.rows && a < b ==> t.rows[a].createdAt.instant <= t.rows[b].createdAt.instant
  }

  /**
   * `get_todays_articles_content()`: at most 5 contents of rows created today,
   * the newest first; a qualifying row is left out only when 5 newer ones were
   * returned.
   */
  lemma TodaysIdsSpec(t: Table, today: int)
    requires ValidTable(t)
    ensures var r := TodaysIds(t, today);
      |r| <= 5 &&
      (forall k :: 0 <= k < |r| ==> Qualifies(t, today, r[k])) &&
      (forall id :: Qualifies(t, today, id) && id !in r ==> |r| == 5 && forall c :: c in r ==> id < c) &&
      (StampsFollowIds(t) ==>
        forall j, k :: 0 <= j < k < |r| ==> t.rows[r[j]].createdAt.instant >= t.rows[r[k]].createdAt.instant)
  {
    var r := TodaysIds(t, today);
    TodayIdsShape(t, today, t.nextId, 5);
    forall id | Qualifies(t, today, id) && id !in r
      ensures |r| == 5 && forall c :: c in r ==> id < c
    {
      TodayIdsComplete(t, today, t.nextId, 5, id);
    }
  }

  /** Inserting through the store under a clock that does not run back keeps stamps in id order. */
  lemma AddKeepsStampOrder(t: Table, url: string, title: string, content: string, now: Stamp)
    requires ValidTable(t) && StampsFollowIds(t)
    requires forall id :: id in t.rows ==> t.rows[id].createdAt.instant <= now.instant
    ensures StampsFollowIds(AddArticle(t, url, title, content, now).0)
  {
  }

  /**
   * The store object: the table's rows and its autoincrement counter, which
   * each operation reads or changes in place.
   */
  class ArticleStore {
    var rows: map<int, Row>
    var nextId: int

    function Snapshot(): Table
      reads this
    {
      Table(rows, nextId)
    }

    ghost predicate Valid()
      reads this
    {
      ValidTable(Snapshot())
    }

    /** `init_db()` on a fresh database file. */
    constructor ()
      ensures Snapshot() == Empty && Valid()
    {
      rows := map[];
      nextId := 1;
    }

    /** `add_article_base(original_url, title, original_content)` */
    method AddArticleBase(url: string, title: string, content: string, now: Stamp) returns (id: Option<int>)
      requires Valid()
      modifies this
      ensures Valid()
      ensures (Snapshot(), id) == AddArticle(old(Snapshot()), url, title, content, now)
    {
      AddArticleSpec(Snapshot(), url, title, content, now);
      if Exists(Snapshot(), url) {
        id := None;
      } else {
        id := Some(nextId);
        rows := rows[nextId := Row(url, title, Some(content), None, None, now)];
        nextId := nextId + 1;
      }
    }

    /** `update_article_translation(article_id, translated_content, telegraph_url)` */
    method UpdateArticleTranslation(id: int, translated: string, telegraphUrl: string)
      requires Valid()
      modifies this
      ensures Valid()
      ensures Snapshot() == UpdateTranslation(old(Snapshot()), id, translated, telegraphUrl)
    {
      UpdateSpec(Snapshot(), id, translated, telegraphUrl);
      if id in rows {
        rows := rows[id := rows[id].(translatedContent := Some(translated), telegraphUrl := Some(telegraphUrl))];
      }
    }

    /** `article_exists(original_url)` */
    method ArticleExists(url: string) returns (b: bool)
      ensures b <==> exists id :: id in rows && rows[id].originalUrl == url
    {
      b := Exists(Snapshot(), url);
    }

    /** `get_article_by_id(article_id)`: the row with that id, if there is one. */
    method GetArticleById(id: int) returns (r: Option<ArticleView>)
      ensures r.Some? <==> id in rows
      ensures r.Some? ==>
        r.value == ArticleView(id, rows[id].title, rows[id].telegraphUrl, rows[id].translatedContent)
    {
      if id in rows {
        var row := rows[id];
        r := Some(ArticleView(id, row.title, row.telegraphUrl, row.translatedContent));
      } else {
        r := None;
      }
    }

    /**
     * `get_article_by_telegraph_url(telegraph_url)`: found exactly when some
     * row carries that page URL; the title is that of the lowest such id.
     */
    method GetArticleByTelegraphUrl(u: string) returns (r: Option<TelegraphView>)
      requires Valid()
      ensures r.Some? <==> exists id :: id in rows && rows[id].telegraphUrl == Some(u)
      ensures r.Some? ==> r.value.telegraphUrl == u
      ensures r.Some? ==>
        exists id :: id in rows && rows[id].telegraphUrl == Some(u) && rows[id].title == r.value.title &&
          forall j :: j in rows && j < id ==> rows[j].telegraphUrl != Some(u)
    {
      r := ByTelegraphUrl(Snapshot(), u);
      FirstWithTelegraphUrlSpec(Snapshot(), u, 1, nextId);
      ByTelegraphUrlSpec(Snapshot(), u);
    }

    /**
     * `get_todays_articles_content()`: scans ids from the newest down and
     * collects the contents of rows created on `today`, stopping at 5.
     */
    method GetTodaysArticlesContent(today: int) returns (r: seq<string>)
      ensures TodaysIdsQualify(Snapshot(), today)
      ensures r == ContentsOf(Snapshot(), today, TodaysIds(Snapshot(), today))
    {
      TodayIdsShape(Snapshot(), today, nextId, 5);
      var i := nextId;
      ghost var ids: seq<int> := [];
      r := [];
      while i > 1 && |r| < 5
        invariant |r| == |ids| <= 5
        invariant ids + TodayIds(Snapshot(), today, i, 5 - |ids|) == TodaysIds(Snapshot(), today)
        invariant forall k :: 0 <= k < |ids| ==>
          (Qualifies(Snapshot(), today, ids[k]) && r[k] == rows[ids[k]].originalContent.value)
        decreases i
      {
        var id := i - 1;
        if id in rows && rows[id].createdAt.localDay == today && rows[id].originalContent.Some? {
          assert TodayIds(Snapshot(), today, i, 5 - |ids|) == [id] + TodayIds(Snapshot(), today, id, 5 - |ids| - 1);
          assert ids + TodayIds(Snapshot(), today, i, 5 - |ids|) == (ids + [id]) + TodayIds(Snapshot(), today, id, 5 - |ids| - 1);
          ids := ids + [id];
          r := r + [rows[id].originalContent.value];
        }
        i := i - 1;
      }
      assert TodayIds(Snapshot(), today, i, 5 - |ids|) == [];
      assert ids == TodaysIds(Snapshot(), today);
    }
  }

  predicate TodaysIdsQualify(t: Table, today: int) {
    forall k :: 0 <= k < |TodaysIds(t, today)| ==> Qualifies(t, today, TodaysIds(t, today)[k])
  }
}
