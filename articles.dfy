/**
 * `ArticleModel`: the `articles` and `article_tags` tables held in memory,
 * the publication-gated reads over them and the writes that change them.
 * `NOW()` is a parameter `now`; MySQL's reading of a datetime text and the
 * full-text relevance of `MATCH ... AGAINST` are functions the model is given.
 */
module Articles {
  import opened Wrappers
  import opened Php
  import Query
  import Str

  /** `ARTICLES_PER_PAGE` and `ADMIN_PER_PAGE`. */
  const ArticlesPerPage: int := 10
  const AdminPerPage: int := 20
  /** The reading speed behind `reading_time`, in words per minute. */
  const WordsPerMinute: int := 238

  datatype Status = Draft | Published | Scheduled

  function StatusName(s: Status): string {
    match s
    case Draft => "draft"
    case Published => "published"
    case Scheduled => "scheduled"
  }

  /** The status a text names, if it is one of the three. */
  function ParseStatus(s: string): (r: Option<Status>)
    ensures r.Some? ==> StatusName(r.value) == s
  {
    if s == "draft" then Some(Draft)
    else if s == "published" then Some(Published)
    else if s == "scheduled" then Some(Scheduled)
    else None
  }

  lemma ParseStatusName(st: Status)
    ensures ParseStatus(StatusName(st)) == Some(st)
  {
  }

  /** A row of `articles`. */
  datatype Article = Article(
    id: int,
    adminId: Option<int>,
    categoryId: Option<int>,
    title: string,
    slug: string,
    excerpt: Option<string>,
    body: string,
    featuredImage: Option<string>,
    status: Status,
    publishedAt: Option<int>,
    scheduledAt: Option<int>,
    metaTitle: Option<string>,
    metaDescription: Option<string>,
    readingTime: int,
    viewCount: int,
    updatedAt: int)

  datatype Category = Category(name: string, slug: string, description: string)

  datatype Tag = Tag(name: string, slug: string)

  /** The `$data` array handed to `create` and `update`; `None` is a missing key or `null`. */
  datatype ArticleData = ArticleData(
    adminId: Option<int>,
    categoryId: int,
    title: string,
    slug: string,
    excerpt: Option<string>,
    body: Option<string>,
    featuredImage: Option<string>,
    status: Option<Status>,
    publishedAt: Option<string>,
    scheduledAt: Option<string>,
    metaTitle: Option<string>,
    metaDescription: Option<string>,
    tags: seq<int>)

  /** The column values `bindArticleData` produces. */
  datatype Columns = Columns(
    adminId: Option<int>,
    categoryId: Option<int>,
    title: string,
    slug: string,
    excerpt: Option<string>,
    body: string,
    featuredImage: Option<string>,
    status: Status,
    publishedAt: Option<string>,
    scheduledAt: Option<string>,
    metaTitle: Option<string>,
    metaDescription: Option<string>,
    readingTime: int)

  // ---------------------------------------------------------------------
  // Reading time.
  // ---------------------------------------------------------------------

  predicate IsLetter(c: char) { Str.IsUpper(c) || Str.IsLower(c) }

  /** The characters `str_word_count` lets into a word. */
  predicate IsWordPart(c: char) { IsLetter(c) || c == '\'' || c == '-' }

  /** The number of maximal runs of word characters; `inWord` says whether one is already open. */
  function Runs(s: string, inWord: bool): nat {
    if s == [] then 0
    else (if IsWordPart(s[0]) && !inWord then 1 else 0) + Runs(s[1..], IsWordPart(s[0]))
  }

  /**
   * `str_word_count`: a leading `'` or `-` and a trailing `-` of the whole text
   * are ignored, then every maximal run of letters, `'` and `-` is a word.
   */
  function WordCount(s: string): nat {
    var s1 := if |s| > 0 && (s[0] == '\'' || s[0] == '-') then s[1..] else s;
    var s2 := if |s1| > 0 && s1[|s1| - 1] == '-' then s1[..|s1| - 1] else s1;
    Runs(s2, false)
  }

  /** Every word but the last is followed by a character that ends it. */
  lemma {:induction false} RunsBound(s: string, inWord: bool)
    ensures 2 * Runs(s, inWord) <= |s| + (if inWord then 0 else 1)
    decreases |s|
  {
    if s != [] {
      RunsBound(s[1..], IsWordPart(s[0]));
    }
  }

  /** A text of `n` characters holds at most `(n + 1) / 2` words. */
  lemma WordCountBound(s: string)
    ensures 2 * WordCount(s) <= |s| + 1
  {
    var s1 := if |s| > 0 && (s[0] == '\'' || s[0] == '-') then s[1..] else s;
    var s2 := if |s1| > 0 && s1[|s1| - 1] == '-' then s1[..|s1| - 1] else s1;
    RunsBound(s2, false);
  }

  /** Two letters apart are two words; a leading `'` and a trailing `-` are dropped. */
  lemma WordCountExample(x: char, y: char)
    requires IsLetter(x) && IsLetter(y)
    ensures WordCount([x, ' ', y]) == 2
    ensures WordCount(['\'', x, '-']) == 1
  {
    assert [x, ' ', y][1..] == [' ', y];
    assert [' ', y][1..] == [y];
    assert ['\'', x, '-'][1..] == [x, '-'];
    assert [x, '-'][..1] == [x];
    assert [x][1..] == [];
    assert Runs([y], false) == 1;
    assert Runs([' ', y], true) == 1;
    assert Runs([x, ' ', y], false) == 2;
    assert Runs([x], false) == 1;
  }

  /** `max(1, (int)ceil($wordCount / 238))`: at least one minute, and enough minutes for every word. */
  function ReadingTime(words: int): (r: int)
    ensures r >= 1
    ensures words <= WordsPerMinute * r
    ensures r == 1 || WordsPerMinute * (r - 1) < words
  {
    Max(1, CeilDiv(words, WordsPerMinute))
  }

  lemma ReadingTimeExamples()
    ensures ReadingTime(0) == 1
    ensures ReadingTime(238) == 1
    ensures ReadingTime(476) == 2
    ensures ReadingTime(477) == 3
  {
  }

  // ---------------------------------------------------------------------
  // Binding an article's data to columns.
  // ---------------------------------------------------------------------

  /**
   * `bindArticleData`: the body defaults to the empty text and gives the
   * reading time, a category id of 0 is stored as `NULL`, the status defaults to
   * draft, and the other optional columns are `NULL` when missing.
   */
  function BindArticleData(d: ArticleData): (c: Columns)
    ensures c.readingTime >= 1
    ensures c.readingTime == ReadingTime(WordCount(d.body.GetOr("")))
    ensures c.categoryId.None? <==> d.categoryId == 0
    ensures c.categoryId.Some? ==> c.categoryId.value == d.categoryId
    ensures c.status == Draft <==> d.status.None? || d.status == Some(Draft)
    ensures c.featuredImage == d.featuredImage && c.adminId == d.adminId
  {
    var body := d.body.GetOr("");
    Columns(
      d.adminId,
      if d.categoryId == 0 then None else Some(d.categoryId),
      d.title,
      d.slug,
      d.excerpt,
      body,
      d.featuredImage,
      d.status.GetOr(Draft),
      d.publishedAt,
      d.scheduledAt,
      d.metaTitle,
      d.metaDescription,
      ReadingTime(WordCount(body)))
  }

  // ---------------------------------------------------------------------
  // The publication gate and the table scan.
  // ---------------------------------------------------------------------

  /** `status = 'published' AND published_at <= NOW()`; a `NULL` date never passes. */
  predicate IsPublic(a: Article, now: int) {
    a.status == Published && a.publishedAt.Some? && a.publishedAt.value <= now
  }

  /** The sort key of `ORDER BY published_at DESC`. */
  function PublishedKey(a: Article): int { a.publishedAt.GetOr(0) }

  /** The sort key of `ORDER BY updated_at DESC`. */
  function UpdatedKey(a: Article): int { a.updatedAt }

  /** `a` is the row stored under its own id. */
  predicate Stored(articles: map<int, Article>, a: Article) {
    a.id in articles && articles[a.id] == a
  }

  /** Every row is stored under its own id. */
  predicate Keyed(articles: map<int, Article>) {
    forall id :: id in articles ==> articles[id].id == id
  }

  /** The rows with ids from `lo` up to `hi`, in ascending id order. */
  function Scan(articles: map<int, Article>, lo: int, hi: int): seq<Article>
    decreases hi - lo
  {
    if lo >= hi then []
    else (if lo in articles then [articles[lo]] else []) + Scan(articles, lo + 1, hi)
  }

  lemma {:induction false} ScanMembers(articles: map<int, Article>, lo: int, hi: int)
    requires Keyed(articles)
    ensures forall a :: a in Scan(articles, lo, hi) <==> lo <= a.id < hi && Stored(articles, a)
    decreases hi - lo
  {
    if lo < hi {
      ScanMembers(articles, lo + 1, hi);
    }
  }

  /** Ids strictly increase along `s`. */
  predicate IdsAscending(s: seq<Article>) {
    forall i, j :: 0 <= i < j < |s| ==> s[i].id < s[j].id
  }

  lemma {:induction false} ScanAscending(articles: map<int, Article>, lo: int, hi: int)
    requires Keyed(articles)
    ensures IdsAscending(Scan(articles, lo, hi))
    decreases hi - lo
  {
    if lo < hi {
      ScanAscending(articles, lo + 1, hi);
      ScanMembers(articles, lo + 1, hi);
      var s, t := Scan(articles, lo, hi), Scan(articles, lo + 1, hi);
      if lo in articles {
        assert s == [articles[lo]] + t;
        assert s[0].id == lo;
        forall i, j | 0 <= i < j < |s|
          ensures s[i].id < s[j].id
        {
          assert s[j] == t[j - 1] && s[j] in t;
          if i > 0 {
            assert s[i] == t[i - 1];
          }
        }
      } else {
        assert s == t;
      }
    }
  }

  /** The rows a listing of the public articles holds are the public rows of the table. */
  lemma PublicSet(articles: map<int, Article>, listing: seq<Article>, now: int)
    requires Keyed(articles)
    requires forall a :: a in listing <==> Stored(articles, a) && IsPublic(a, now)
    ensures (set a | a in listing) == (set id | id in articles && IsPublic(articles[id], now) :: articles[id])
  {
    forall a | Stored(articles, a) && IsPublic(a, now)
      ensures a in (set id | id in articles && IsPublic(articles[id], now) :: articles[id])
    {
      assert articles[a.id] == a;
    }
  }

  /** Some row other than `excludeId` has the slug `slug`. */
  predicate SlugTaken(articles: map<int, Article>, slug: string, excludeId: int) {
    exists id :: id in articles && id != excludeId && articles[id].slug == slug
  }

  /** No two rows share a slug. */
  ghost predicate SlugsUnique(articles: map<int, Article>) {
    forall i, j :: i in articles && j in articles && i != j ==> articles[i].slug != articles[j].slug
  }

  /**
   * Storing row `id` under a slug that no row other than `excludeId` has keeps
   * slugs unique, when `excludeId` is `id` itself or no row at all.
   */
  lemma FreeSlugKeepsSlugsUnique(articles: map<int, Article>, id: int, a: Article, excludeId: int)
    requires SlugsUnique(articles)
    requires !SlugTaken(articles, a.slug, excludeId)
    requires excludeId == id || excludeId !in articles
    ensures SlugsUnique(articles[id := a])
  {
    var r := articles[id := a];
    forall i, j | i in r && j in r && i != j
      ensures r[i].slug != r[j].slug
    {
      if i == id {
        assert j in articles && j != excludeId;
      } else if j == id {
        assert i in articles && i != excludeId;
      }
    }
  }

  /** The slugs of the rows other than `excludeId`. */
  ghost function OtherSlugs(articles: map<int, Article>, excludeId: int): set<string> {
    set id | id in articles && id != excludeId :: articles[id].slug
  }

  lemma TakenIsOther(articles: map<int, Article>, slug: string, excludeId: int)
    requires SlugTaken(articles, slug, excludeId)
    ensures slug in OtherSlugs(articles, excludeId)
  {
    var id :| id in articles && id != excludeId && articles[id].slug == slug;
  }

  /** The `slug, updated_at` pairs of the rows, in their order. */
  function SitemapEntries(rows: seq<Article>): (r: seq<(string, int)>)
    ensures |r| == |rows|
    ensures forall k :: 0 <= k < |rows| ==> r[k] == (rows[k].slug, rows[k].updatedAt)
  {
    if rows == [] then [] else [(rows[0].slug, rows[0].updatedAt)] + SitemapEntries(rows[1..])
  }

  /** Every row has its pair among the entries. */
  lemma {:induction false} SitemapEntriesHold(rows: seq<Article>)
    ensures forall a :: a in rows ==> (a.slug, a.updatedAt) in SitemapEntries(rows)
    decreases |rows|
  {
    if rows != [] {
      SitemapEntriesHold(rows[1..]);
      assert rows == [rows[0]] + rows[1..];
    }
  }

  /** Assigning `article_tags` rows: the rows of `aid` become one per id in `tagIds`, the others stay. */
  function Retagged(links: set<(int, int)>, aid: int, tagIds: seq<int>): (r: set<(int, int)>)
    ensures forall b, t :: (b, t) in r <==> if b == aid then t in tagIds else (b, t) in links
  {
    (set p | p in links && p.0 != aid) + (set t | t in tagIds :: (aid, t))
  }

  /** The pairs a flat list of values `[a1, t1, a2, t2, ...]` inserts. */
  function Pairs(values: seq<int>): set<(int, int)> {
    set j | 0 <= j < |values| / 2 :: (values[2 * j], values[2 * j + 1])
  }

  /** The values `[aid, t1, aid, t2, ...]` insert one pair `(aid, t)` per tag id `t`. */
  lemma PairsOfValues(values: seq<int>, aid: int, tagIds: seq<int>)
    requires |values| == 2 * |tagIds|
    requires forall j :: 0 <= j < |tagIds| ==> values[2 * j] == aid && values[2 * j + 1] == tagIds[j]
    ensures Pairs(values) == set t | t in tagIds :: (aid, t)
  {
    forall p | p in Pairs(values)
      ensures p.0 == aid && p.1 in tagIds
    {
      var j :| 0 <= j < |values| / 2 && p == (values[2 * j], values[2 * j + 1]);
    }
    forall t | t in tagIds
      ensures (aid, t) in Pairs(values)
    {
      var j :| 0 <= j < |tagIds| && tagIds[j] == t;
      assert (values[2 * j], values[2 * j + 1]) == (aid, t);
    }
  }

  class ArticleModel {
    /** `articles`, keyed by id. */
    var articles: map<int, Article>
    /** `article_tags`: pairs (article id, tag id). */
    var articleTags: set<(int, int)>
    /** The next `AUTO_INCREMENT` id. */
    var nextId: int
    /** MySQL's reading of a datetime text, as seconds. */
    const toTime: string -> int
    /** `MATCH(title, excerpt, body) AGAINST(query)`; a positive score is a match. */
    const relevance: (string, Article) -> int

    ghost predicate Valid()
      reads this
    {
      && nextId >= 1
      && Keyed(articles)
      && (forall id :: id in articles ==>
            1 <= id < nextId && articles[id].readingTime >= 1 && articles[id].viewCount >= 0)
    }


    constructor (toTime: string -> int, relevance: (string, Article) -> int)
      ensures Valid()
      ensures articles == map[] && articleTags == {} && nextId == 1
      ensures this.toTime == toTime && this.relevance == relevance
    {
      articles, articleTags, nextId := map[], {}, 1;
      this.toTime, this.relevance := toTime, relevance;
    }

    /** All rows, in ascending id order. */
    function Rows(): (r: seq<Article>)
      reads this
      requires Valid()
      ensures forall a :: a in r <==> Stored(articles, a)
      ensures Query.Distinct(r)
    {
      ScanMembers(articles, 1, nextId);
      ScanAscending(articles, 1, nextId);
      var s := Scan(articles, 1, nextId);
      assert Query.Distinct(s) by {
        forall i, j | 0 <= i < j < |s|
          ensures s[i] != s[j]
        {
          assert s[i].id < s[j].id;
        }
      }
      s
    }

    /** The rows satisfying `p`, largest `key` first. */
    function Listing(p: Article -> bool, key: Article -> int): (r: seq<Article>)
      reads this
      requires Valid()
      ensures forall a :: a in r <==> Stored(articles, a) && p(a)
      ensures Query.SortedDesc(r, key)
      ensures Query.Distinct(r)
    {
      var rows := Rows();
      var hits := Query.Filter(rows, p);
      Query.FilterKeepsDistinct(rows, p);
      var r := Query.SortDesc(hits, key);
      Query.PermutationKeepsDistinct(hits, r);
      assert forall a :: a in r <==> a in hits by {
        forall a
          ensures a in r <==> a in hits
        {
          assert a in r <==> a in multiset(r);
          assert a in hits <==> a in multiset(hits);
        }
      }
      r
    }

    /** Every published article whose date has come, newest first. */
    function PublicListing(now: int): (r: seq<Article>)
      reads this
      requires Valid()
      ensures forall a :: a in r <==> Stored(articles, a) && IsPublic(a, now)
      ensures Query.SortedDesc(r, PublishedKey)
    {
      Listing(a => IsPublic(a, now), PublishedKey)
    }

    /** `getPublished`: page `page` of the public listing; only public articles, newest first. */
    function GetPublished(page: int, perPage: int, now: int): (r: seq<Article>)
      reads this
      requires Valid() && page >= 1 && perPage >= 0
      ensures |r| <= perPage
      ensures forall a :: a in r ==> Stored(articles, a) && IsPublic(a, now)
      ensures Query.SortedDesc(r, PublishedKey)
    {
      var listing := PublicListing(now);
      Query.PageMembers(listing, page, perPage);
      Query.PageKeepsOrder(listing, page, perPage, PublishedKey);
      Query.Page(listing, page, perPage)
    }

    /** `getPublished` skips `(page - 1) * perPage` rows of the public listing and returns the next `perPage`. */
    lemma GetPublishedIsWindow(page: int, perPage: int, now: int)
      requires Valid() && page >= 1 && perPage >= 0
      ensures var r, listing := GetPublished(page, perPage, now), PublicListing(now);
        && |r| == Max(0, Min(perPage, |listing| - (page - 1) * perPage))
        && forall k :: 0 <= k < |r| ==> 0 <= (page - 1) * perPage + k < |listing| && r[k] == listing[(page - 1) * perPage + k]
    {
      var listing := PublicListing(now);
      var r := Query.Page(listing, page, perPage);
      assert GetPublished(page, perPage, now) == r;
      Query.PageOffset(page, perPage);
    }

    /** Every public article is on some page of `getPublished`. */
    lemma PublicArticleIsListed(a: Article, perPage: int, now: int)
      requires Valid() && perPage > 0
      requires Stored(articles, a) && IsPublic(a, now)
      ensures exists page :: page >= 1 && a in GetPublished(page, perPage, now)
    {
      var listing := PublicListing(now);
      assert a in listing;
      var i :| 0 <= i < |listing| && listing[i] == a;
      var page := Query.EveryRowIsOnAPage(listing, perPage, i);
      assert Query.Page(listing, page, perPage) == GetPublished(page, perPage, now);
    }

    /** `countPublished`: the number of public articles. */
    function CountPublished(now: int): (c: int)
      reads this
      requires Valid()
      ensures c == |PublicListing(now)|
      ensures c == |set id | id in articles && IsPublic(articles[id], now) :: articles[id]|
    {
      var listing := PublicListing(now);
      Query.DistinctCardinality(listing);
      PublicSet(articles, listing, now);
      |Query.Filter(Rows(), a => IsPublic(a, now))|
    }

    /** An article belongs to the category whose slug is `categorySlug` (the inner join). */
    predicate InCategory(categories: map<int, Category>, a: Article, categorySlug: string) {
      a.categoryId.Some? && a.categoryId.value in categories
      && categories[a.categoryId.value].slug == categorySlug
    }

    /** The public articles of the category whose slug is `categorySlug`, newest first. */
    function CategoryListing(categories: map<int, Category>, categorySlug: string, now: int): (r: seq<Article>)
      reads this
      requires Valid()
      ensures forall a :: a in r <==>
        Stored(articles, a) && IsPublic(a, now) && InCategory(categories, a, categorySlug)
      ensures Query.SortedDesc(r, PublishedKey)
    {
      Listing(a => IsPublic(a, now) && InCategory(categories, a, categorySlug), PublishedKey)
    }

    /** `getByCategory`: a page of the public articles of one category, newest first. */
    function GetByCategory(categories: map<int, Category>, categorySlug: string, page: int, now: int): (r: seq<Article>)
      reads this
      requires Valid() && page >= 1
      ensures |r| <= ArticlesPerPage
      ensures forall a :: a in r ==>
        Stored(articles, a) && IsPublic(a, now) && InCategory(categories, a, categorySlug)
      ensures Query.SortedDesc(r, PublishedKey)
    {
      var listing := CategoryListing(categories, categorySlug, now);
      Query.PageMembers(listing, page, ArticlesPerPage);
      Query.PageKeepsOrder(listing, page, ArticlesPerPage, PublishedKey);
      Query.Page(listing, page, ArticlesPerPage)
    }

    /** `getByCategory` skips `(page - 1) * 10` rows of the category's listing and returns the next ten. */
    lemma GetByCategoryIsWindow(categories: map<int, Category>, categorySlug: string, page: int, now: int)
      requires Valid() && page >= 1
      ensures var r, listing := GetByCategory(categories, categorySlug, page, now), CategoryListing(categories, categorySlug, now);
        && |r| == Max(0, Min(ArticlesPerPage, |listing| - (page - 1) * ArticlesPerPage))
        && forall k :: 0 <= k < |r| ==>
             0 <= (page - 1) * ArticlesPerPage + k < |listing| && r[k] == listing[(page - 1) * ArticlesPerPage + k]
    {
      var listing := CategoryListing(categories, categorySlug, now);
      var r := Query.Page(listing, page, ArticlesPerPage);
      assert GetByCategory(categories, categorySlug, page, now) == r;
      Query.PageOffset(page, ArticlesPerPage);
    }

    /** Every public article of the category is on some page of `getByCategory`. */
    lemma CategoryArticleIsListed(categories: map<int, Category>, categorySlug: string, a: Article, now: int)
      requires Valid()
      requires Stored(articles, a) && IsPublic(a, now) && InCategory(categories, a, categorySlug)
      ensures exists page :: page >= 1 && a in GetByCategory(categories, categorySlug, page, now)
    {
      var listing := CategoryListing(categories, categorySlug, now);
      assert a in listing;
      var i :| 0 <= i < |listing| && listing[i] == a;
      var page := Query.EveryRowIsOnAPage(listing, ArticlesPerPage, i);
      assert Query.Page(listing, page, ArticlesPerPage) == GetByCategory(categories, categorySlug, page, now);
    }

    /** The public articles that match `query`, most relevant first. */
    function SearchListing(query: string, now: int): (r: seq<Article>)
      reads this
      requires Valid()
      ensures forall a :: a in r <==> Stored(articles, a) && IsPublic(a, now) && relevance(query, a) > 0
      ensures Query.SortedDesc(r, a => relevance(query, a))
    {
      Listing(a => IsPublic(a, now) && relevance(query, a) > 0, a => relevance(query, a))
    }

    /** `search`: a page of the public articles that match the query, most relevant first. */
    function Search(query: string, page: int, now: int): (r: seq<Article>)
      reads this
      requires Valid() && page >= 1
      ensures |r| <= ArticlesPerPage
      ensures forall a :: a in r ==> Stored(articles, a) && IsPublic(a, now) && relevance(query, a) > 0
      ensures Query.SortedDesc(r, a => relevance(query, a))
    {
      var listing := SearchListing(query, now);
      Query.PageMembers(listing, page, ArticlesPerPage);
      Query.PageKeepsOrder(listing, page, ArticlesPerPage, a => relevance(query, a));
      Query.Page(listing, page, ArticlesPerPage)
    }

    /** `search` skips `(page - 1) * 10` rows of the matches and returns the next ten. */
    lemma SearchIsWindow(query: string, page: int, now: int)
      requires Valid() && page >= 1
      ensures var r, listing := Search(query, page, now), SearchListing(query, now);
        && |r| == Max(0, Min(ArticlesPerPage, |listing| - (page - 1) * ArticlesPerPage))
        && forall k :: 0 <= k < |r| ==>
             0 <= (page - 1) * ArticlesPerPage + k < |listing| && r[k] == listing[(page - 1) * ArticlesPerPage + k]
    {
      var listing := SearchListing(query, now);
      var r := Query.Page(listing, page, ArticlesPerPage);
      assert Search(query, page, now) == r;
      Query.PageOffset(page, ArticlesPerPage);
    }

    /** Every public article that matches the query is on some page of `search`. */
    lemma MatchingArticleIsListed(query: string, a: Article, now: int)
      requires Valid()
      requires Stored(articles, a) && IsPublic(a, now) && relevance(query, a) > 0
      ensures exists page :: page >= 1 && a in Search(query, page, now)
    {
      var listing := SearchListing(query, now);
      assert a in listing;
      var i :| 0 <= i < |listing| && listing[i] == a;
      var page := Query.EveryRowIsOnAPage(listing, ArticlesPerPage, i);
      assert Query.Page(listing, page, ArticlesPerPage) == Search(query, page, now);
    }

    /** The `WHERE` of `adminGetAll`: a falsy status text selects every article. */
    predicate HasStatus(a: Article, status: string) {
      Empty(status) || StatusName(a.status) == status
    }

    /** The articles the status filter selects, last updated first. */
    function StatusListing(status: string): (r: seq<Article>)
      reads this
      requires Valid()
      ensures forall a :: a in r <==> Stored(articles, a) && HasStatus(a, status)
      ensures Query.SortedDesc(r, UpdatedKey)
    {
      Listing(a => HasStatus(a, status), UpdatedKey)
    }

    /** `adminGetAll`: a page of all articles, or of those with the given status, last updated first. */
    function AdminGetAll(page: int, status: string): (r: seq<Article>)
      reads this
      requires Valid() && page >= 1
      ensures |r| <= AdminPerPage
      ensures forall a :: a in r ==> Stored(articles, a)
      ensures !Empty(status) ==> forall a :: a in r ==> StatusName(a.status) == status
      ensures Query.SortedDesc(r, UpdatedKey)
    {
      var listing := StatusListing(status);
      Query.PageMembers(listing, page, AdminPerPage);
      Query.PageKeepsOrder(listing, page, AdminPerPage, UpdatedKey);
      Query.Page(listing, page, AdminPerPage)
    }

    /** `adminGetAll` skips `(page - 1) * 20` rows of the filtered listing and returns the next twenty. */
    lemma AdminGetAllIsWindow(page: int, status: string)
      requires Valid() && page >= 1
      ensures var r, listing := AdminGetAll(page, status), StatusListing(status);
        && |r| == Max(0, Min(AdminPerPage, |listing| - (page - 1) * AdminPerPage))
        && forall k :: 0 <= k < |r| ==>
             0 <= (page - 1) * AdminPerPage + k < |listing| && r[k] == listing[(page - 1) * AdminPerPage + k]
    {
      var listing := StatusListing(status);
      var r := Query.Page(listing, page, AdminPerPage);
      assert AdminGetAll(page, status) == r;
      Query.PageOffset(page, AdminPerPage);
    }

    /**
     * Every article the filter selects is on some page; with an empty filter that is
     * every article, drafts and scheduled ones included.
     */
    lemma AdminListsEveryArticle(id: int, status: string)
      requires Valid() && id in articles && HasStatus(articles[id], status)
      ensures exists page :: page >= 1 && articles[id] in AdminGetAll(page, status)
    {
      var listing := StatusListing(status);
      assert articles[id] in listing;
      var i :| 0 <= i < |listing| && listing[i] == articles[id];
      var page := Query.EveryRowIsOnAPage(listing, AdminPerPage, i);
      assert Query.Page(listing, page, AdminPerPage) == AdminGetAll(page, status);
    }

    /** `adminGetById`: the row and the ids of its tags that exist. */
    function AdminGetById(tags: map<int, Tag>, id: int): (r: Option<(Article, set<int>)>)
      reads this
      ensures r.Some? <==> id in articles
      ensures r.Some? ==> r.value.0 == articles[id]
      ensures r.Some? ==> forall t :: t in r.value.1 <==> (id, t) in articleTags && t in tags
    {
      if id in articles then Some((articles[id], set t | t in tags.Keys && (id, t) in articleTags))
      else None
    }

    /** `getTagsForArticle`: the tags joined to article `aid`. */
    function GetTagsForArticle(tags: map<int, Tag>, aid: int): (r: set<Tag>)
      reads this
      ensures forall tid :: tid in tags && (aid, tid) in articleTags ==> tags[tid] in r
      ensures forall t :: t in r ==> exists tid :: tid in tags && (aid, tid) in articleTags && tags[tid] == t
    {
      set tid | tid in tags.Keys && (aid, tid) in articleTags :: tags[tid]
    }

    /** `getAllForSitemap`: slug and last update of every public article, newest first. */
    function GetAllForSitemap(now: int): (r: seq<(string, int)>)
      reads this
      requires Valid()
      ensures |r| == |PublicListing(now)|
      ensures forall a :: Stored(articles, a) && IsPublic(a, now) ==> (a.slug, a.updatedAt) in r
      ensures forall k :: 0 <= k < |r| ==> r[k] == (PublicListing(now)[k].slug, PublicListing(now)[k].updatedAt)
    {
      var listing := PublicListing(now);
      SitemapEntriesHold(listing);
      SitemapEntries(listing)
    }

    /** `slugExists`: some article other than `excludeId` has this slug. */
    function SlugExists(slug: string, excludeId: int): (b: bool)
      reads this
      requires Valid()
      ensures b <==> SlugTaken(articles, slug, excludeId)
    {
      var p := (a: Article) => a.slug == slug && a.id != excludeId;
      var hits := Query.Filter(Rows(), p);
      assert forall id :: id in articles && id != excludeId && articles[id].slug == slug ==> articles[id] in hits;
      assert hits != [] ==> exists id :: id in articles && id != excludeId && articles[id].slug == slug by {
        if hits != [] {
          assert hits[0] in hits;
          assert articles[hits[0].id] == hits[0];
        }
      }
      |hits| > 0
    }

    /** The row `create` inserts. */
    function NewRow(id: int, c: Columns, now: int): (a: Article)
      ensures a.id == id && a.viewCount == 0 && a.readingTime == c.readingTime
      ensures a.slug == c.slug && a.status == c.status && a.adminId == c.adminId
    {
      Article(id, c.adminId, c.categoryId, c.title, c.slug, c.excerpt, c.body, c.featuredImage,
        c.status, if c.publishedAt.Some? then Some(toTime(c.publishedAt.value)) else None,
        if c.scheduledAt.Some? then Some(toTime(c.scheduledAt.value)) else None,
        c.metaTitle, c.metaDescription, c.readingTime, 0, now)
    }

    /** The row `update` leaves: every listed column rewritten, the author and the view count kept. */
    function UpdatedRow(a: Article, c: Columns, now: int): (r: Article)
      ensures r.id == a.id && r.adminId == a.adminId && r.viewCount == a.viewCount
      ensures r == NewRow(a.id, c, now).(adminId := a.adminId, viewCount := a.viewCount)
    {
      NewRow(a.id, c, now).(adminId := a.adminId, viewCount := a.viewCount)
    }

    /** `create`: insert a row under the next id; assign tags only when some are given. */
    method Create(data: ArticleData, now: int) returns (id: int)
      requires Valid()
      modifies this
      ensures Valid()
      ensures id == old(nextId) && id !in old(articles) && nextId == old(nextId) + 1
      ensures articles == old(articles)[id := NewRow(id, BindArticleData(data), now)]
      ensures articleTags == if |data.tags| > 0 then Retagged(old(articleTags), id, data.tags) else old(articleTags)
    {
      id := nextId;
      articles := articles[id := NewRow(id, BindArticleData(data), now)];
      nextId := nextId + 1;
      if |data.tags| > 0 {
        SyncTags(id, data.tags);
      }
    }

    /**
     * `update`: rewrite the row `id` if there is one, keeping its author and
     * view count; the tags are reassigned when some are given, whether or not the row exists.
     */
    method Update(id: int, data: ArticleData, now: int)
      requires Valid()
      modifies this
      ensures Valid()
      ensures articles == if id in old(articles)
        then old(articles)[id := UpdatedRow(old(articles)[id], BindArticleData(data), now)]
        else old(articles)
      ensures articleTags == if |data.tags| > 0 then Retagged(old(articleTags), id, data.tags) else old(articleTags)
      ensures nextId == old(nextId)
    {
      if id in articles {
        articles := articles[id := UpdatedRow(articles[id], BindArticleData(data), now)];
      }
      if |data.tags| > 0 {
        SyncTags(id, data.tags);
      }
    }

    /** `delete`: remove the row; its `article_tags` rows stay. */
    method Delete(id: int)
      requires Valid()
      modifies this
      ensures Valid()
      ensures articles == old(articles) - {id}
      ensures articleTags == old(articleTags) && nextId == old(nextId)
    {
      articles := articles - {id};
    }

    /**
     * `syncTags`: delete the article's `article_tags` rows, then, if ids are
     * given, insert one row per id from a flat list of values.
     */
    method SyncTags(aid: int, tagIds: seq<int>)
      requires Valid()
      modifies this
      ensures Valid()
      ensures articleTags == Retagged(old(articleTags), aid, tagIds)
      ensures articles == old(articles) && nextId == old(nextId)
    {
      articleTags := set p | p in articleTags && p.0 != aid;
      if |tagIds| == 0 {
        return;
      }
      var values: seq<int> := [];
      for k := 0 to |tagIds|
        invariant |values| == 2 * k
        invariant forall j :: 0 <= j < k ==> values[2 * j] == aid && values[2 * j + 1] == tagIds[j]
      {
        values := values + [aid, tagIds[k]];
      }
      PairsOfValues(values, aid, tagIds);
      articleTags := articleTags + Pairs(values);
    }

    /** `incrementViews`: one more view for the row `id`, if there is one. */
    method IncrementViews(id: int)
      requires Valid()
      modifies this
      ensures Valid()
      ensures articles == if id in old(articles)
        then old(articles)[id := old(articles)[id].(viewCount := old(articles)[id].viewCount + 1)]
        else old(articles)
      ensures articleTags == old(articleTags) && nextId == old(nextId)
    {
      if id in articles {
        articles := articles[id := articles[id].(viewCount := articles[id].viewCount + 1)];
      }
    }

    /**
     * `getBySlug`: the first public article with this slug, in id order, with
     * its tags; a hit counts one view of that article and changes nothing else,
     * a miss changes nothing.
     */
    method GetBySlug(tags: map<int, Tag>, slug: string, now: int) returns (r: Option<(Article, set<Tag>)>)
      requires Valid()
      modifies this
      ensures Valid()
      ensures r.None? <==> !exists id :: id in old(articles) && old(articles)[id].slug == slug && IsPublic(old(articles)[id], now)
      ensures r.Some? ==> var a := r.value.0;
        && Stored(old(articles), a) && a.slug == slug && IsPublic(a, now)
        && r.value.1 == GetTagsForArticle(tags, a.id)
        && articles == old(articles)[a.id := a.(viewCount := a.viewCount + 1)]
      ensures r.None? ==> articles == old(articles)
      ensures articleTags == old(articleTags) && nextId == old(nextId)
    {
      var hits := Query.Filter(Rows(), (a: Article) => a.slug == slug && IsPublic(a, now));
      assert forall id :: id in articles && articles[id].slug == slug && IsPublic(articles[id], now) ==> articles[id] in hits;
      if |hits| == 0 {
        return None;
      }
      var a := hits[0];
      assert a in hits;
      r := Some((a, GetTagsForArticle(tags, a.id)));
      IncrementViews(a.id);
    }
  }

  /** A category table; `CategoryModel` inserts and deletes rows. */
  class CategoryModel {
    var categories: map<int, Category>
    var nextId: int

    ghost predicate Valid()
      reads this
    {
      nextId >= 1 && forall id :: id in categories ==> 1 <= id < nextId
    }

    constructor ()
      ensures Valid() && categories == map[] && nextId == 1
    {
      categories, nextId := map[], 1;
    }

    /** Insert a category under the next id. */
    method Create(c: Category) returns (id: int)
      requires Valid()
      modifies this
      ensures Valid()
      ensures id == old(nextId) && id !in old(categories) && nextId == old(nextId) + 1
      ensures categories == old(categories)[id := c]
    {
      id := nextId;
      categories := categories[id := c];
      nextId := nextId + 1;
    }

    /** Delete the category `id`, if there is one. */
    method Delete(id: int)
      requires Valid()
      modifies this
      ensures Valid()
      ensures categories == old(categories) - {id} && nextId == old(nextId)
    {
      categories := categories - {id};
    }
  }
}
