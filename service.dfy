/**
 * `IngestionService` (apps/api/src/ingestion/ingestion.service.ts) as a class
 * that owns the tables it reads and writes through the store: articles keyed
 * by their unique `originalUrl`, sources, categories in the order a
 * `findFirst` scans them, and the (source, category) links. Each method runs
 * the source's steps in order and is proved to agree with the functions of
 * the Pipeline module, whose properties are proved there.
 */
module Service {
  import opened Text
  import opened Records
  import opened Pipeline
  import Slug

  class IngestionService {
    var articles: map<Text, Article>
    var sources: seq<Source>
    var categories: seq<Category>
    var sourceCategories: set<(Text, Text)>

    /** The store's own constraints: `originalUrl` and `slug` are unique, `id` is the primary key of sources. */
    ghost predicate Valid()
      reads this
    {
      UrlKeyed(articles) && UniqueSlugs(articles) && UniqueSourceIds(sources)
    }

    /** The tables ingestion only reads. */
    function Tables(): Catalog
      reads this`sources, this`categories, this`sourceCategories
    {
      Catalog(sources, categories, sourceCategories)
    }

    constructor (sources: seq<Source>, categories: seq<Category>, sourceCategories: set<(Text, Text)>,
                 articles: map<Text, Article>)
      requires UrlKeyed(articles) && UniqueSlugs(articles) && UniqueSourceIds(sources)
      ensures Valid()
      ensures this.articles == articles && Tables() == Catalog(sources, categories, sourceCategories)
    {
      this.articles := articles;
      this.sources := sources;
      this.categories := categories;
      this.sourceCategories := sourceCategories;
    }

    /**
     * `createArticleFromRSSItem`: `Ok(true)` when the article was written,
     * `Ok(false)` when the item was invalid or a duplicate, `Err` when the
     * store threw on the write.
     */
    method CreateArticleFromRssItem(item: Item, sourceId: Text, env: Env) returns (r: Result<bool>)
      requires Valid()
      modifies this`articles
      ensures Valid()
      ensures var o := Decide(old(articles), Tables(), item, sourceId, env);
        articles == Record(old(articles), o) && r == Reply(o)
    {
      if !HasRequiredFields(item) {
        return Ok(false);
      }
      var originalUrl := item.link.value;
      if originalUrl in articles {
        return Ok(false);
      }
      // the columns of the new row (lines 106-149), derived by `NewArticle`
      var article := NewArticle(Tables(), item, sourceId, env);
      var written := CreateArticle(article, env);
      if !written {
        return Err(StoreError(originalUrl));
      }
      return Ok(true);
    }

    /**
     * `article.create`: the store inserts the row, or throws when the write
     * fails or another article already has the row's slug.
     */
    method CreateArticle(article: Article, env: Env) returns (written: bool)
      requires Valid() && article.originalUrl !in articles
      modifies this`articles
      ensures Valid()
      ensures written <==> article.originalUrl !in env.failingWrites && !SlugTaken(old(articles), article.slug)
      ensures articles == if written then old(articles)[article.originalUrl := article] else old(articles)
    {
      if article.originalUrl in env.failingWrites || SlugTaken(articles, article.slug) {
        return false;
      }
      articles := articles[article.originalUrl := article];
      return true;
    }

    /**
     * `ingestFromSource`: the number of articles created from the source's
     * feed; an unknown source or a feed that cannot be fetched is an error.
     */
    method IngestFromSource(sourceId: Text, env: Env) returns (r: Result<nat>)
      requires Valid()
      modifies this`articles
      ensures Valid()
      ensures var run := IngestSource(old(articles), Tables(), sourceId, env);
        r == run.result && articles == run.articles
    {
      var found := FindSource(sources, sourceId);
      if found.None? {
        return Err(SourceNotFound(sourceId));
      }
      var source := found.value;
      if !source.isActive {
        return Ok(0);
      }
      var feed := Fetch(env, source.rssFeedUrl);
      if feed.Unreachable? {
        return Err(FetchError(source.rssFeedUrl));
      }
      var items := feed.items;
      var createdCount: nat := 0;
      var skippedCount: nat := 0;
      var i := 0;
      while i < |items|
        invariant 0 <= i <= |items|
        invariant Valid()
        invariant Batch(articles, createdCount) == IngestItems(old(articles), Tables(), items[..i], source.id, env)
        invariant createdCount + skippedCount <= i
      {
        ghost var before := Batch(articles, createdCount);
        ghost var o := Decide(articles, Tables(), items[i], source.id, env);
        var created := CreateArticleFromRssItem(items[i], source.id, env);
        assert articles == Record(before.articles, o) && created == Reply(o);
        match created {
          case Ok(true) => createdCount := createdCount + 1;
          case Ok(false) => skippedCount := skippedCount + 1;
          case Err(_) =>  // the item's failure is logged and the loop goes on
        }
        assert createdCount == before.created + if o.Created? then 1 else 0;
        IngestItemsStep(old(articles), Tables(), items, source.id, env, i);
        assert Batch(articles, createdCount) == ItemStep(before, Tables(), items[i], source.id, env);
        i := i + 1;
      }
      assert items[..i] == items;
      return Ok(createdCount);
    }

    /**
     * `ingestFromAllSources`: one `{source, count}` entry per active source,
     * in table order; a source whose ingestion throws is reported with 0.
     */
    method IngestFromAllSources(env: Env) returns (results: seq<SourceCount>)
      requires Valid()
      modifies this`articles
      ensures Valid()
      ensures var run := IngestAll(old(articles), Tables(), ActiveSources(sources), env);
        results == run.results && articles == run.articles
      ensures |results| == |ActiveSources(sources)|
      ensures forall k :: 0 <= k < |results| ==> results[k].source == ActiveSources(sources)[k].name
    {
      var active := ActiveSources(sources);
      results := [];
      var i := 0;
      while i < |active|
        invariant 0 <= i <= |active|
        invariant Valid()
        invariant AllRun(results, articles) == IngestAll(old(articles), Tables(), active[..i], env)
      {
        ghost var before := AllRun(results, articles);
        var r := IngestFromSource(active[i].id, env);
        match r {
          case Ok(count) => results := results + [SourceCount(active[i].name, count)];
          case Err(_) => results := results + [SourceCount(active[i].name, 0)];
        }
        IngestAllStep(old(articles), Tables(), active, env, i);
        assert AllRun(results, articles) == AllStep(before, Tables(), active[i], env);
        i := i + 1;
      }
      assert active[..i] == active;
    }
  }
}
