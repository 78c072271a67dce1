/**
 * The records the ingestion service reads and writes: RSS items as the feed
 * parser delivers them, sources, categories, articles, and the outside world
 * of one ingestion run (clock, fetched feeds, store write failures).
 */
module Records {
  import opened Text

  datatype Option<+T> = None | Some(value: T)

  datatype Error =
    | SourceNotFound(sourceId: Text)  // ingestion.service.ts:23-25
    | FetchError(url: Text)           // parseURL failed; rethrown at line 63
    | StoreError(originalUrl: Text)   // the store refused the article write

  datatype Result<+T> = Ok(value: T) | Err(error: Error)

  /** JavaScript truthiness of an optional string: present and not empty. */
  predicate Truthy(field: Option<Text>) {
    field.Some? && field.value != []
  }

  /**
   * One parsed RSS entry. Absent fields are `None`; `pubDate` is already a
   * millisecond timestamp; an entry without categories has `categories == []`.
   */
  datatype Item = Item(
    link: Option<Text>,
    title: Option<Text>,
    content: Option<Text>,
    contentSnippet: Option<Text>,
    description: Option<Text>,
    pubDate: Option<int>,
    categories: seq<Text>)

  /** A publisher; in this data shape the source itself owns the feed URL. */
  datatype Source = Source(id: Text, name: Text, rssFeedUrl: Text, isActive: bool)

  datatype Category = Category(id: Text, slug: Text)

  /** The columns `createArticleFromRSSItem` writes (ingestion.service.ts:136-149). */
  datatype Article = Article(
    title: Text,
    slug: Text,
    content: Text,
    excerpt: Option<Text>,
    originalUrl: Text,
    rssPublishedAt: int,
    fetchedAt: int,
    isNewsflash: bool,
    sourceId: Text,
    categoryId: Option<Text>)

  /** What `parser.parseURL` yields for one feed URL. */
  datatype Feed = Unreachable | Parsed(items: seq<Item>)

  /**
   * The outside world during one ingestion run: the clock in milliseconds,
   * the feed document behind each URL (a URL not listed cannot be fetched),
   * and the original URLs whose article write the store rejects.
   */
  datatype Env = Env(now: int, feeds: map<Text, Feed>, failingWrites: set<Text>)

  /** The stand-in for `parser.parseURL`: the feed listed for `url`, if any. */
  function Fetch(env: Env, url: Text): (feed: Feed)
  {
    if url in env.feeds then env.feeds[url] else Unreachable
  }

  /** The read-only tables: sources, categories in scan order, and (source, category) links. */
  datatype Catalog = Catalog(
    sources: seq<Source>,
    categories: seq<Category>,
    sourceCategories: set<(Text, Text)>)

  /** The article table is keyed by `originalUrl`, the column the store keeps unique. */
  ghost predicate UrlKeyed(articles: map<Text, Article>) {
    forall url :: url in articles ==> articles[url].originalUrl == url
  }

  /** No two stored articles share a `slug`, the other unique column of the articles table. */
  ghost predicate UniqueSlugs(articles: map<Text, Article>) {
    forall u, v :: u in articles && v in articles && u != v ==> articles[u].slug != articles[v].slug
  }

  /** Some stored article already has the slug `slug`. */
  predicate SlugTaken(articles: map<Text, Article>, slug: Text) {
    exists url :: url in articles && articles[url].slug == slug
  }

  /** `id` is the sources table's primary key. */
  ghost predicate UniqueSourceIds(sources: seq<Source>) {
    forall i, j :: 0 <= i < j < |sources| ==> sources[i].id != sources[j].id
  }
}
