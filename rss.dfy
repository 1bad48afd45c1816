/**
 * `get_latest_articles` (rss_reader.py): the newest entries of a parsed feed.
 * Fetching and parsing the feed is an input: the model starts from the
 * parser's result.
 */
module RssReader {
  import opened Wrappers

  /** A feed entry; `published` is `published_parsed` when the feed gave a parsable date. */
  datatype Entry = Entry(title: string, link: string, published: Option<seq<int>>)

  /** The parser's result: `bozo` is set when the document was malformed. */
  datatype Feed = Feed(bozo: bool, entries: seq<Entry>)

  /** The record returned per entry: only its title and link. */
  datatype FeedItem = FeedItem(title: string, link: string)

  /** The sort key: `published_parsed`, or the one-element tuple `(0,)` when it is missing. */
  function Key(e: Entry): seq<int> {
    e.published.GetOr([0])
  }

  /** Python's tuple `<`: the first differing position decides, and a proper prefix is smaller. */
  predicate KeyLess(a: seq<int>, b: seq<int>) {
    if |a| == 0 then |b| > 0
    else if |b| == 0 then false
    else if a[0] != b[0] then a[0] < b[0]
    else KeyLess(a[1..], b[1..])
  }

  lemma {:induction false} KeyLessIrreflexive(a: seq<int>)
    ensures !KeyLess(a, a)
  {
    if |a| > 0 {
      KeyLessIrreflexive(a[1..]);
    }
  }

  lemma {:induction false} KeyLessTransitive(a: seq<int>, b: seq<int>, c: seq<int>)
    requires KeyLess(a, b) && KeyLess(b, c)
    ensures KeyLess(a, c)
  {
    if |a| > 0 && |b| > 0 && |c| > 0 && a[0] == b[0] && b[0] == c[0] {
      KeyLessTransitive(a[1..], b[1..], c[1..]);
    }
  }

  lemma {:induction false} KeyLessTotal(a: seq<int>, b: seq<int>)
    ensures a == b || KeyLess(a, b) || KeyLess(b, a)
  {
    if |a| > 0 && |b| > 0 && a[0] == b[0] {
      KeyLessTotal(a[1..], b[1..]);
      if a[1..] == b[1..] {
        assert a == [a[0]] + a[1..] && b == [b[0]] + b[1..];
      }
    }
  }

  /** `e` sorts strictly before `f` in the descending order. */
  predicate Newer(e: Entry, f: Entry) {
    KeyLess(Key(f), Key(e))
  }

  lemma NewerAsymmetric(e: Entry, f: Entry)
    ensures !(Newer(e, f) && Newer(f, e))
  {
    if Newer(e, f) && Newer(f, e) {
      KeyLessTransitive(Key(e), Key(f), Key(e));
      KeyLessIrreflexive(Key(e));
    }
  }

  /** Not-newer is transitive: keys are totally ordered. */
  lemma NotNewerTransitive(e: Entry, f: Entry, g: Entry)
    requires !Newer(f, e) && !Newer(g, f)
    ensures !Newer(g, e)
  {
    if Newer(g, e) {
      KeyLessTotal(Key(e), Key(f));
      KeyLessTotal(Key(f), Key(g));
      if Key(e) != Key(f) && Key(f) != Key(g) {
        KeyLessTransitive(Key(g), Key(f), Key(e));
        KeyLessTransitive(Key(e), Key(g), Key(e));
        KeyLessIrreflexive(Key(e));
      }
    }
  }

  /** Most recent first: no entry is newer than one before it. */
  predicate SortedDesc(s: seq<Entry>) {
    forall i, j :: 0 <= i < j < |s| ==> !Newer(s[j], s[i])
  }

  /** The entries of `s` whose key is `k`, in the order of `s`. */
  function WithKey(s: seq<Entry>, k: seq<int>): seq<Entry>
    decreases |s|
  {
    if |s| == 0 then []
    else (if Key(s[0]) == k then [s[0]] else []) + WithKey(s[1..], k)
  }

  /** Places `x` before the first element that is not newer than it. */
  function InsertDesc(x: Entry, s: seq<Entry>): seq<Entry>
    decreases |s|
  {
    if |s| == 0 then [x]
    else if !Newer(s[0], x) then [x] + s
    else [s[0]] + InsertDesc(x, s[1..])
  }

  /** `sorted(entries, key=..., reverse=True)`: a stable sort on descending keys. */
  function SortDesc(s: seq<Entry>): seq<Entry>
    decreases |s|
  {
    if |s| == 0 then [] else InsertDesc(s[0], SortDesc(s[1..]))
  }

  lemma {:induction false} InsertDescPermutes(x: Entry, s: seq<Entry>)
    ensures multiset(InsertDesc(x, s)) == multiset(s) + multiset{x}
    decreases |s|
  {
    if |s| > 0 && Newer(s[0], x) {
      InsertDescPermutes(x, s[1..]);
      assert s == [s[0]] + s[1..];
    }
  }

  lemma {:induction false} InsertDescSorted(x: Entry, s: seq<Entry>)
    requires SortedDesc(s)
    ensures SortedDesc(InsertDesc(x, s))
    decreases |s|
  {
    if |s| == 0 {
    } else if !Newer(s[0], x) {
      SortedWithFront(x, s);
    } else {
      InsertDescSorted(x, s[1..]);
      InsertDescPermutes(x, s[1..]);
      assert s == [s[0]] + s[1..];
      SortedWithHead(s[0], x, s[1..], InsertDesc(x, s[1..]));
    }
  }

  /** An entry not older than the head of a sorted sequence can go in front of it. */
  lemma SortedWithFront(x: Entry, s: seq<Entry>)
    requires SortedDesc(s) && |s| > 0 && !Newer(s[0], x)
    ensures SortedDesc([x] + s)
  {
    var r := [x] + s;
    forall i, j | 0 <= i < j < |r| ensures !Newer(r[j], r[i]) {
      if i == 0 && j > 1 {
        NotNewerTransitive(x, s[0], s[j - 1]);
      }
    }
  }

  /** The head of a sorted sequence stays in front when its tail, plus an older `x`, is re-sorted. */
  lemma SortedWithHead(h: Entry, x: Entry, rest: seq<Entry>, t: seq<Entry>)
    requires SortedDesc([h] + rest) && Newer(h, x)
    requires SortedDesc(t) && multiset(t) == multiset(rest) + multiset{x}
    ensures SortedDesc([h] + t)
  {
    var r := [h] + t;
    forall i, j | 0 <= i < j < |r| ensures !Newer(r[j], r[i]) {
      if i == 0 {
        var y := t[j - 1];
        assert r[0] == h && r[j] == y;
        assert y in multiset(t);
        if y == x {
          NewerAsymmetric(h, x);
        } else {
          assert y in multiset(rest);
          var m :| 0 <= m < |rest| && rest[m] == y;
          assert ([h] + rest)[0] == h && ([h] + rest)[m + 1] == y;
        }
      } else {
        assert r[i] == t[i - 1] && r[j] == t[j - 1];
      }
    }
  }

  /** Inserting `x` adds it at the front of its key's group. */
  lemma {:induction false} InsertDescWithKey(x: Entry, s: seq<Entry>, k: seq<int>)
    ensures WithKey(InsertDesc(x, s), k) == (if Key(x) == k then [x] else []) + WithKey(s, k)
    decreases |s|
  {
    if |s| == 0 {
      assert WithKey([x], k) == (if Key(x) == k then [x] else []) + WithKey([], k);
    } else if !Newer(s[0], x) {
      assert ([x] + s)[1..] == s;
    } else {
      var rest := InsertDesc(x, s[1..]);
      var head := if Key(s[0]) == k then [s[0]] else [];
      var mine := if Key(x) == k then [x] else [];
      InsertDescWithKey(x, s[1..], k);
      KeyLessIrreflexive(Key(x));
      assert Key(s[0]) != Key(x);
      assert ([s[0]] + rest)[1..] == rest;
      assert WithKey(InsertDesc(x, s), k) == head + (mine + WithKey(s[1..], k));
      assert head == [] || mine == [];
      assert head + mine == mine + head;
    }
  }

  /** The order is most recent first. */
  lemma {:induction false} SortDescSorted(s: seq<Entry>)
    ensures SortedDesc(SortDesc(s))
    decreases |s|
  {
    if |s| > 0 {
      SortDescSorted(s[1..]);
      InsertDescSorted(s[0], SortDesc(s[1..]));
    }
  }

  /** Nothing is lost, duplicated or invented. */
  lemma {:induction false} SortDescPermutes(s: seq<Entry>)
    ensures multiset(SortDesc(s)) == multiset(s)
    decreases |s|
  {
    if |s| > 0 {
      var r := SortDesc(s[1..]);
      SortDescPermutes(s[1..]);
      InsertDescPermutes(s[0], r);
      assert SortDesc(s) == InsertDesc(s[0], r);
      assert multiset(s) == multiset(s[1..]) + multiset{s[0]} by {
        assert s == [s[0]] + s[1..];
      }
    }
  }

  /** Entries with equal keys keep their feed order. */
  lemma {:induction false} SortDescStable(s: seq<Entry>, k: seq<int>)
    ensures WithKey(SortDesc(s), k) == WithKey(s, k)
    decreases |s|
  {
    if |s| > 0 {
      SortDescStable(s[1..], k);
      InsertDescWithKey(s[0], SortDesc(s[1..]), k);
    }
  }

  /** `s[:count]` with Python's slice semantics: a negative bound counts from the end. */
  function TakePy<T>(s: seq<T>, count: int): (r: seq<T>)
    ensures |r| <= |s| && r == s[..|r|]
    ensures count >= 0 ==> |r| == (if count < |s| then count else |s|)
    ensures count < 0 ==> |r| == (if |s| + count > 0 then |s| + count else 0)
  {
    if count >= 0 then (if count < |s| then s[..count] else s)
    else if |s| + count > 0 then s[..|s| + count] else []
  }

  /** The entries `get_latest_articles` keeps, before they are reduced to title and link. */
  function SelectEntries(feed: Feed, count: int): seq<Entry> {
    if feed.bozo || |feed.entries| == 0 then []
    else TakePy(SortDesc(feed.entries), count)
  }

  function Item(e: Entry): FeedItem {
    FeedItem(e.title, e.link)
  }

  /** `get_latest_articles(feed_url, count)` on the parsed feed. */
  function GetLatestArticles(feed: Feed, count: int): (r: seq<FeedItem>)
    ensures |r| == |SelectEntries(feed, count)|
    ensures forall i :: 0 <= i < |r| ==>
      r[i].title == SelectEntries(feed, count)[i].title && r[i].link == SelectEntries(feed, count)[i].link
  {
    var chosen := SelectEntries(feed, count);
    seq(|chosen|, i requires 0 <= i < |chosen| => Item(chosen[i]))
  }

  /** A malformed or empty feed yields no articles. */
  lemma MalformedOrEmptyFeed(feed: Feed, count: int)
    requires feed.bozo || |feed.entries| == 0
    ensures GetLatestArticles(feed, count) == []
  {
  }

  /** A well-formed feed yields `min(count, number of entries)` articles for a non-negative count. */
  lemma LatestCount(feed: Feed, count: int)
    requires !feed.bozo && count >= 0
    ensures |GetLatestArticles(feed, count)| ==
      (if count < |feed.entries| then count else |feed.entries|)
  {
    SortDescPermutes(feed.entries);
    assert |SortDesc(feed.entries)| == |multiset(SortDesc(feed.entries))|;
  }

  /**
   * The chosen entries are feed entries, most recent first, and no entry of
   * the feed that is newer than a chosen one is left out.
   */
  lemma LatestAreNewest(feed: Feed, count: int)
    ensures var chosen := SelectEntries(feed, count);
      SortedDesc(chosen) && multiset(chosen) <= multiset(feed.entries) &&
      forall e, c :: e in feed.entries && c in chosen && Newer(e, c) ==> e in chosen
  {
    var chosen := SelectEntries(feed, count);
    if !feed.bozo && |feed.entries| > 0 {
      var sorted := SortDesc(feed.entries);
      SortDescSorted(feed.entries);
      SortDescPermutes(feed.entries);
      assert chosen == sorted[..|chosen|];
      assert sorted == chosen + sorted[|chosen|..];
      assert multiset(sorted) == multiset(chosen) + multiset(sorted[|chosen|..]);
      forall e, c | e in feed.entries && c in chosen && Newer(e, c) ensures e in chosen {
        assert e in multiset(sorted);
        NewerInPrefix(sorted, |chosen|, e, c);
      }
    }
  }

  /** In a sorted sequence, an entry newer than one in a prefix lies in that prefix too. */
  lemma NewerInPrefix(sorted: seq<Entry>, n: nat, e: Entry, c: Entry)
    requires SortedDesc(sorted) && n <= |sorted|
    requires e in sorted && c in sorted[..n] && Newer(e, c)
    ensures e in sorted[..n]
  {
    var j :| 0 <= j < |sorted| && sorted[j] == e;
    var i :| 0 <= i < n && sorted[..n][i] == c;
    assert sorted[i] == c;
    if j < n {
      assert sorted[..n][j] == e;
    }
  }

  /** A dated entry with a positive year. */
  predicate Dated(e: Entry) {
    e.published.Some? && |e.published.value| > 0 && e.published.value[0] > 0
  }

  /** Entries without a date sort after every entry dated after year 0. */
  lemma UndatedLast(feed: Feed, count: int, i: nat, j: nat)
    requires i < j < |SelectEntries(feed, count)|
    requires Dated(SelectEntries(feed, count)[j])
    ensures SelectEntries(feed, count)[i].published.Some?
  {
    LatestAreNewest(feed, count);
    var chosen := SelectEntries(feed, count);
    assert !Newer(chosen[j], chosen[i]);
  }

  predicate IsPrefix<T(==)>(a: seq<T>, b: seq<T>) {
    |a| <= |b| && a == b[..|a|]
  }

  lemma {:induction false} WithKeyOfPrefix(s: seq<Entry>, n: nat, k: seq<int>)
    requires n <= |s|
    ensures IsPrefix(WithKey(s[..n], k), WithKey(s, k))
    decreases n
  {
    if n > 0 {
      WithKeyOfPrefix(s[1..], n - 1, k);
      assert s[..n][1..] == s[1..][..n - 1];
    }
  }

  /** Among entries with the same date, the chosen ones are the first in feed order. */
  lemma LatestKeepFeedOrder(feed: Feed, count: int, k: seq<int>)
    ensures IsPrefix(WithKey(SelectEntries(feed, count), k), WithKey(feed.entries, k))
  {
    var chosen := SelectEntries(feed, count);
    if !feed.bozo && |feed.entries| > 0 {
      var sorted := SortDesc(feed.entries);
      SortDescStable(feed.entries, k);
      WithKeyOfPrefix(sorted, |chosen|, k);
      assert chosen == sorted[..|chosen|];
    }
  }
}
