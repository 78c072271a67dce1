/**
 * The decisions of the ingestion service as functions of the store's tables
 * and of the outside world: the per-item gate of `createArticleFromRSSItem`,
 * the category matcher, and the loops of `ingestFromSource` and
 * `ingestFromAllSources`. The class in service.dfy runs these steps on its
 * tables and is proved to agree with them.
 */
module Pipeline {
  import opened Text
  import opened Records
  import Slug

  const ExcerptLength := 500
  const NewsflashWindowMs := 10 * 60 * 1000

  /* ---------------- Item fields ---------------- */

  /** JavaScript's `a || b || ... || ''` over optional strings: the first truthy one, or the empty string. */
  function FirstTruthy(fields: seq<Option<Text>>): (r: Text)
    decreases |fields|
  {
    if fields == [] then []
    else if Truthy(fields[0]) then fields[0].value
    else FirstTruthy(fields[1..])
  }

  /** The chain is empty exactly when no field is truthy; otherwise it is the first truthy field. */
  lemma {:induction false} FirstTruthyIsFirst(fields: seq<Option<Text>>)
    ensures var r := FirstTruthy(fields);
      && (r == [] <==> forall k :: 0 <= k < |fields| ==> !Truthy(fields[k]))
      && (r != [] ==> exists k :: 0 <= k < |fields| && fields[k] == Some(r)
                                  && forall j :: 0 <= j < k ==> !Truthy(fields[j]))
    decreases |fields|
  {
    if fields != [] && !Truthy(fields[0]) {
      FirstTruthyIsFirst(fields[1..]);
      var r := FirstTruthy(fields);
      if r != [] {
        var k :| 0 <= k < |fields[1..]| && fields[1..][k] == Some(r) && forall j :: 0 <= j < k ==> !Truthy(fields[1..][j]);
        assert fields[k + 1] == Some(r);
        assert forall j :: 0 <= j < k + 1 ==> !Truthy(fields[j]) by {
          forall j | 0 <= j < k + 1 ensures !Truthy(fields[j]) {
            if j > 0 {
              assert fields[j] == fields[1..][j - 1];
            }
          }
        }
      }
      forall k | 0 <= k < |fields| && r == [] ensures !Truthy(fields[k]) {
        if k > 0 {
          assert fields[k] == fields[1..][k - 1];
        }
      }
    } else if fields != [] {
      assert fields[0] == Some(FirstTruthy(fields));
    }
  }

  /** The validation at ingestion.service.ts:101: `link`, `title` and `contentSnippet` must all be truthy. */
  predicate HasRequiredFields(item: Item) {
    Truthy(item.link) && Truthy(item.title) && Truthy(item.contentSnippet)
  }

  /** Published no earlier than ten minutes before `now` (ingestion.service.ts:129-130). */
  predicate IsNewsflash(publishedAt: int, now: int) {
    publishedAt >= now - NewsflashWindowMs
  }

  /* ---------------- Category matching ---------------- */

  /** Category `i` is the first, in table order, whose slug contains `tag`. */
  predicate FirstMatch(categories: seq<Category>, tag: Text, i: int) {
    0 <= i < |categories| && Contains(categories[i].slug, tag)
    && forall j :: 0 <= j < i ==> !Contains(categories[j].slug, tag)
  }

  /** `category.findFirst({ where: { slug: { contains: tag } } })`, as an index into the table. */
  function FindFirstCategory(categories: seq<Category>, tag: Text): (r: Option<nat>)
    ensures r.Some? ==> FirstMatch(categories, tag, r.value)
    ensures r.None? ==> forall j :: 0 <= j < |categories| ==> !Contains(categories[j].slug, tag)
    decreases |categories|
  {
    if categories == [] then None
    else if Contains(categories[0].slug, tag) then Some(0)
    else match FindFirstCategory(categories[1..], tag)
      case None => None
      case Some(i) => Some(i + 1)
  }

  /** The lower-cased first RSS category of the item, if it has one. */
  function FirstTag(item: Item): (tag: Option<Text>)
    ensures tag.None? <==> item.categories == []
    ensures tag.Some? ==>
      && |tag.value| == |item.categories[0]| && Every(tag.value, NotUpper)
      && (forall i :: 0 <= i < |tag.value| ==> tag.value[i] == Lower(item.categories[0][i]))
  {
    if |item.categories| > 0 then Some(LowerText(item.categories[0])) else None
  }

  /**
   * `matchCategory` (ingestion.service.ts:171-202): the first category whose
   * slug contains the item's first tag, provided the source is linked to it.
   */
  function MatchCategory(catalog: Catalog, item: Item, sourceId: Text): (r: Option<Text>)
  {
    match FirstTag(item)
    case None => None
    case Some(tag) =>
      match FindFirstCategory(catalog.categories, tag)
      case None => None
      case Some(i) =>
        var id := catalog.categories[i].id;
        if (sourceId, id) in catalog.sourceCategories then Some(id) else None
  }

  /**
   * An id is returned exactly when the item has a first tag, some category's
   * slug contains it, and the source is linked to the first such category;
   * the id is that first category's.
   */
  lemma MatchCategoryIsFirstLinked(catalog: Catalog, item: Item, sourceId: Text)
    ensures var r := MatchCategory(catalog, item, sourceId);
      && (r.Some? <==>
            FirstTag(item).Some? &&
            exists i :: FirstMatch(catalog.categories, FirstTag(item).value, i)
                        && (sourceId, catalog.categories[i].id) in catalog.sourceCategories)
      && (r.Some? ==>
            exists i :: FirstMatch(catalog.categories, FirstTag(item).value, i) && r.value == catalog.categories[i].id)
  {
  }

  /* ---------------- The per-item gate ---------------- */

  datatype Outcome =
    | Invalid               // missing link, title or contentSnippet: returns false
    | Duplicate             // an article with this originalUrl exists: returns false
    | WriteFailed(url: Text) // the store threw inside `article.create`
    | Created(article: Article)

  /** The article `createArticleFromRSSItem` writes for a valid item (ingestion.service.ts:106-149). */
  function NewArticle(catalog: Catalog, item: Item, sourceId: Text, env: Env): (a: Article)
    requires HasRequiredFields(item)
  {
    var content := FirstTruthy([item.content, item.contentSnippet, item.description]);
    var excerpt := FirstTruthy([item.contentSnippet, item.description]);
    var rssPublishedAt := if item.pubDate.Some? then item.pubDate.value else env.now;
    Article(
      title := item.title.value,
      slug := Slug.GenerateSlug(item.title.value),
      content := content,
      excerpt := if excerpt != [] then Some(Prefix(excerpt, ExcerptLength)) else None,
      originalUrl := item.link.value,
      rssPublishedAt := rssPublishedAt,
      fetchedAt := env.now,
      isNewsflash := IsNewsflash(rssPublishedAt, env.now),
      sourceId := sourceId,
      categoryId := MatchCategory(catalog, item, sourceId))
  }

  /** What `createArticleFromRSSItem` does with `item` against the article table `articles`. */
  function Decide(articles: map<Text, Article>, catalog: Catalog, item: Item, sourceId: Text, env: Env): (o: Outcome)
    ensures o.Invalid? <==> !HasRequiredFields(item)
    ensures o.Duplicate? <==> HasRequiredFields(item) && item.link.value in articles
    ensures o.WriteFailed? <==>
      && HasRequiredFields(item) && item.link.value !in articles
      && (item.link.value in env.failingWrites || SlugTaken(articles, Slug.GenerateSlug(item.title.value)))
    ensures o.Created? ==>
      && o.article.originalUrl == item.link.value && o.article.originalUrl !in articles
      && !SlugTaken(articles, o.article.slug) && o.article.sourceId == sourceId
  {
    if !HasRequiredFields(item) then Invalid
    else if item.link.value in articles then Duplicate
    else
      var article := NewArticle(catalog, item, sourceId, env);
      if item.link.value in env.failingWrites || SlugTaken(articles, article.slug) then WriteFailed(item.link.value)
      else Created(article)
  }

  /** The columns of a created article (ingestion.service.ts:106-149). */
  lemma CreatedArticle(articles: map<Text, Article>, catalog: Catalog, item: Item, sourceId: Text, env: Env)
    ensures var o := Decide(articles, catalog, item, sourceId, env);
      o.Created? ==>
        var a := o.article;
        && a.originalUrl == item.link.value && a.originalUrl !in articles
        && !SlugTaken(articles, a.slug)
        && a.title == item.title.value
        && a.slug == Slug.GenerateSlug(item.title.value) && Slug.IsSlug(a.slug)
        && a.content != []
        && a.content == (if Truthy(item.content) then item.content.value else item.contentSnippet.value)
        && a.excerpt == Some(Prefix(item.contentSnippet.value, ExcerptLength))
        && a.sourceId == sourceId
        && a.categoryId == MatchCategory(catalog, item, sourceId)
        && a.fetchedAt == env.now
        && a.rssPublishedAt == (if item.pubDate.Some? then item.pubDate.value else env.now)
        && (a.isNewsflash <==> env.now - a.rssPublishedAt <= NewsflashWindowMs)
  {
  }

  /** The item is skipped exactly when `link`, `title` or `contentSnippet` is missing or empty. */
  lemma ValidationGate(articles: map<Text, Article>, catalog: Catalog, item: Item, sourceId: Text, env: Env)
    ensures Decide(articles, catalog, item, sourceId, env) == Invalid <==>
      !Truthy(item.link) || !Truthy(item.title) || !Truthy(item.contentSnippet)
  {
  }

  /** An item is a newsflash exactly when it was published at most ten minutes before `now`. */
  lemma NewsflashWithinWindow(publishedAt: int, now: int)
    ensures IsNewsflash(publishedAt, now) <==> now - publishedAt <= 600000
  {
  }

  /** The ten-minute window is closed: exactly ten minutes old qualifies, one second more does not. */
  lemma NewsflashWindowIsInclusive(now: int)
    ensures IsNewsflash(now - 600000, now)
    ensures !IsNewsflash(now - 601000, now)
  {
  }

  /** An item without a publication date is stamped with `now` and so is always a newsflash. */
  lemma UndatedItemIsNewsflash(articles: map<Text, Article>, catalog: Catalog, item: Item, sourceId: Text, env: Env)
    requires item.pubDate.None?
    ensures var o := Decide(articles, catalog, item, sourceId, env);
      o.Created? ==> o.article.rssPublishedAt == env.now && o.article.isNewsflash
  {
  }

  /** What `createArticleFromRSSItem` answers for an outcome: `true`, `false`, or the store's error. */
  function Reply(o: Outcome): (r: Result<bool>)
    ensures r == Ok(true) <==> o.Created?
    ensures r == Ok(false) <==> o.Invalid? || o.Duplicate?
    ensures r.Err? <==> o.WriteFailed?
  {
    match o
    case Created(_) => Ok(true)
    case WriteFailed(url) => Err(StoreError(url))
    case _ => Ok(false)
  }

  /** The article table after an outcome: only a creation writes. */
  function Record(articles: map<Text, Article>, o: Outcome): (after: map<Text, Article>) {
    if o.Created? then articles[o.article.originalUrl := o.article] else articles
  }

  /** Recording an outcome adds at most the new article under its own URL and keeps everything stored. */
  lemma RecordStep(articles: map<Text, Article>, o: Outcome)
    requires o.Created? ==> o.article.originalUrl !in articles && !SlugTaken(articles, o.article.slug)
    ensures articles.Keys <= Record(articles, o).Keys
    ensures forall url :: url in articles ==> Record(articles, o)[url] == articles[url]
    ensures |Record(articles, o)| == |articles| + if o.Created? then 1 else 0
    ensures UrlKeyed(articles) ==> UrlKeyed(Record(articles, o))
    ensures UniqueSlugs(articles) ==> UniqueSlugs(Record(articles, o))
  {
  }

  /** A slug once taken stays taken: recording never removes or changes a stored article. */
  lemma SlugStaysTaken(articles: map<Text, Article>, o: Outcome, slug: Text)
    requires o.Created? ==> o.article.originalUrl !in articles
    requires SlugTaken(articles, slug)
    ensures SlugTaken(Record(articles, o), slug)
  {
    var url :| url in articles && articles[url].slug == slug;
    assert url in Record(articles, o) && Record(articles, o)[url].slug == slug;
  }

  /* ---------------- ingestFromSource: the item loop ---------------- */

  datatype Batch = Batch(articles: map<Text, Article>, created: nat)

  /** The loop at ingestion.service.ts:42-54 over `items`, starting from the table `articles`. */
  function IngestItems(articles: map<Text, Article>, catalog: Catalog, items: seq<Item>, sourceId: Text, env: Env): (b: Batch)
    ensures b.created <= |items|
    ensures articles.Keys <= b.articles.Keys
    ensures |b.articles| == |articles| + b.created
    ensures UrlKeyed(articles) ==> UrlKeyed(b.articles)
    ensures UniqueSlugs(articles) ==> UniqueSlugs(b.articles)
    decreases |items|
  {
    if items == [] then Batch(articles, 0)
    else
      var before := IngestItems(articles, catalog, items[..|items| - 1], sourceId, env);
      RecordStep(before.articles, Decide(before.articles, catalog, items[|items| - 1], sourceId, env));
      ItemStep(before, catalog, items[|items| - 1], sourceId, env)
  }

  /** One iteration of that loop: decide on `item`, record the outcome, count it if it created an article. */
  function ItemStep(before: Batch, catalog: Catalog, item: Item, sourceId: Text, env: Env): (after: Batch)
    ensures before.articles.Keys <= after.articles.Keys
    ensures after.created == before.created || after.created == before.created + 1
    ensures |after.articles| == |before.articles| + (after.created - before.created)
  {
    var o := Decide(before.articles, catalog, item, sourceId, env);
    Batch(Record(before.articles, o), before.created + if o.Created? then 1 else 0)
  }

  /** The loop over the first `i + 1` items is one more step after the loop over the first `i`. */
  lemma IngestItemsStep(articles: map<Text, Article>, catalog: Catalog, items: seq<Item>, sourceId: Text, env: Env, i: nat)
    requires i < |items|
    ensures IngestItems(articles, catalog, items[..i + 1], sourceId, env)
         == ItemStep(IngestItems(articles, catalog, items[..i], sourceId, env), catalog, items[i], sourceId, env)
  {
    assert items[..i + 1][..i] == items[..i];
  }

  /**
   * The loop never changes a stored article, and every article it adds
   * belongs to the source and is stored under the link of one of the items.
   */
  lemma {:induction false} IngestItemsKeepsStored(
    articles: map<Text, Article>, catalog: Catalog, items: seq<Item>, sourceId: Text, env: Env)
    ensures var b := IngestItems(articles, catalog, items, sourceId, env);
      && (forall url :: url in articles ==> b.articles[url] == articles[url])
      && (forall url :: url in b.articles && url !in articles ==>
            b.articles[url].sourceId == sourceId && exists k :: 0 <= k < |items| && items[k].link == Some(url))
    decreases |items|
  {
    if items != [] {
      var init := items[..|items| - 1];
      var last := items[|items| - 1];
      var before := IngestItems(articles, catalog, init, sourceId, env);
      var o := Decide(before.articles, catalog, last, sourceId, env);
      IngestItemsKeepsStored(articles, catalog, init, sourceId, env);
      RecordStep(before.articles, o);
      var b := IngestItems(articles, catalog, items, sourceId, env);
      assert b.articles == Record(before.articles, o);
      forall url | url in b.articles && url !in articles
        ensures b.articles[url].sourceId == sourceId && exists k :: 0 <= k < |items| && items[k].link == Some(url)
      {
        if url in before.articles {
          var k :| 0 <= k < |init| && init[k].link == Some(url);
          assert items[k] == init[k];
        } else {
          assert o.Created? && url == o.article.originalUrl;
          assert items[|items| - 1].link == Some(url);
        }
      }
    }
  }

  /* ---------------- ingestFromSource and ingestFromAllSources ---------------- */

  /** `source.findUnique({ where: { id } })`. */
  function FindSource(sources: seq<Source>, id: Text): (r: Option<Source>)
    ensures r.Some? ==> r.value in sources && r.value.id == id
    ensures r.None? ==> forall k :: 0 <= k < |sources| ==> sources[k].id != id
    decreases |sources|
  {
    if sources == [] then None
    else if sources[0].id == id then Some(sources[0])
    else FindSource(sources[1..], id)
  }

  datatype SourceRun = SourceRun(result: Result<nat>, articles: map<Text, Article>)

  /** `ingestFromSource` (ingestion.service.ts:17-65). */
  function IngestSource(articles: map<Text, Article>, catalog: Catalog, sourceId: Text, env: Env): (run: SourceRun)
    ensures run.result == Err(SourceNotFound(sourceId)) <==>
      forall k :: 0 <= k < |catalog.sources| ==> catalog.sources[k].id != sourceId
    ensures run.result.Err? ==> run.articles == articles
    ensures run.result.Ok? ==>
      articles.Keys <= run.articles.Keys && |run.articles| == |articles| + run.result.value
    ensures UrlKeyed(articles) ==> UrlKeyed(run.articles)
  {
    match FindSource(catalog.sources, sourceId)
    case None => SourceRun(Err(SourceNotFound(sourceId)), articles)
    case Some(source) =>
      if !source.isActive then SourceRun(Ok(0), articles)
      else match Fetch(env, source.rssFeedUrl)
        case Unreachable => SourceRun(Err(FetchError(source.rssFeedUrl)), articles)
        case Parsed(items) =>
          var b := IngestItems(articles, catalog, items, source.id, env);
          SourceRun(Ok(b.created), b.articles)
  }

  /** `source.findMany({ where: { isActive: true } })`, in table order. */
  function ActiveSources(sources: seq<Source>): (active: seq<Source>)
    ensures |active| <= |sources|
    decreases |sources|
  {
    if sources == [] then []
    else if sources[0].isActive then [sources[0]] + ActiveSources(sources[1..])
    else ActiveSources(sources[1..])
  }

  /** The active sources are exactly the listed sources whose `isActive` flag is set. */
  lemma {:induction false} ActiveSourcesMembers(sources: seq<Source>, s: Source)
    ensures s in ActiveSources(sources) <==> s in sources && s.isActive
    decreases |sources|
  {
    if sources != [] {
      ActiveSourcesMembers(sources[1..], s);
      assert s in sources <==> s == sources[0] || s in sources[1..];
    }
  }

  datatype SourceCount = SourceCount(source: Text, count: nat)

  function TotalCount(results: seq<SourceCount>): (total: nat)
    decreases |results|
  {
    if results == [] then 0 else TotalCount(results[..|results| - 1]) + results[|results| - 1].count
  }

  datatype AllRun = AllRun(results: seq<SourceCount>, articles: map<Text, Article>)

  /** The loop of `ingestFromAllSources` (ingestion.service.ts:77-85) over the sources `active`. */
  function IngestAll(articles: map<Text, Article>, catalog: Catalog, active: seq<Source>, env: Env): (run: AllRun)
    ensures |run.results| == |active|
    ensures forall k :: 0 <= k < |active| ==> run.results[k].source == active[k].name
    ensures UrlKeyed(articles) ==> UrlKeyed(run.articles)
    decreases |active|
  {
    if active == [] then AllRun([], articles)
    else AllStep(IngestAll(articles, catalog, active[..|active| - 1], env), catalog, active[|active| - 1], env)
  }

  /** One iteration of that loop: ingest `source`, then push its entry, with count 0 if the run threw. */
  function AllStep(before: AllRun, catalog: Catalog, source: Source, env: Env): (after: AllRun)
    ensures |after.results| == |before.results| + 1 && after.results[..|before.results|] == before.results
    ensures after.results[|before.results|].source == source.name
  {
    var run := IngestSource(before.articles, catalog, source.id, env);
    var count := if run.result.Ok? then run.result.value else 0;
    AllRun(before.results + [SourceCount(source.name, count)], run.articles)
  }

  /** The run over the first `i + 1` sources is one more step after the run over the first `i`. */
  lemma IngestAllStep(articles: map<Text, Article>, catalog: Catalog, active: seq<Source>, env: Env, i: nat)
    requires i < |active|
    ensures IngestAll(articles, catalog, active[..i + 1], env)
         == AllStep(IngestAll(articles, catalog, active[..i], env), catalog, active[i], env)
  {
    assert active[..i + 1][..i] == active[..i];
  }

  /** The run over all sources keeps every stored URL and adds exactly as many articles as it reports. */
  lemma {:induction false} IngestAllGrowth(articles: map<Text, Article>, catalog: Catalog, active: seq<Source>, env: Env)
    ensures var run := IngestAll(articles, catalog, active, env);
      articles.Keys <= run.articles.Keys && |run.articles| == |articles| + TotalCount(run.results)
    decreases |active|
  {
    if active != [] {
      var init := active[..|active| - 1];
      IngestAllGrowth(articles, catalog, init, env);
      var before := IngestAll(articles, catalog, init, env);
      var run := IngestAll(articles, catalog, active, env);
      assert run.results[..|run.results| - 1] == before.results;
    }
  }

  /* ---------------- Properties of the item loop ---------------- */

  /**
   * A valid item is settled in a table when its link is stored, or when a
   * stored article has its slug: either way the store will not add it.
   */
  predicate Settled(articles: map<Text, Article>, item: Item)
    requires HasRequiredFields(item)
  {
    item.link.value in articles || SlugTaken(articles, Slug.GenerateSlug(item.title.value))
  }

  /** Recording an outcome never unsettles an item. */
  lemma SettledStays(articles: map<Text, Article>, o: Outcome, item: Item)
    requires o.Created? ==> o.article.originalUrl !in articles
    requires HasRequiredFields(item) && Settled(articles, item)
    ensures Settled(Record(articles, o), item)
  {
    if item.link.value !in articles {
      SlugStaysTaken(articles, o, Slug.GenerateSlug(item.title.value));
    }
  }

  /** A valid item whose URL the store does not refuse is settled once it has been decided. */
  lemma DecideSettles(articles: map<Text, Article>, catalog: Catalog, item: Item, sourceId: Text, env: Env)
    requires HasRequiredFields(item) && item.link.value !in env.failingWrites
    ensures Settled(Record(articles, Decide(articles, catalog, item, sourceId, env)), item)
  {
    var o := Decide(articles, catalog, item, sourceId, env);
    if o.WriteFailed? {
      assert Record(articles, o) == articles;
    } else if o.Created? {
      assert item.link.value in Record(articles, o);
    }
  }

  /** Items that are all invalid or settled leave the table as it is and create nothing. */
  lemma {:induction false} NothingNewChangesNothing(
    articles: map<Text, Article>, catalog: Catalog, items: seq<Item>, sourceId: Text, env: Env)
    requires forall k :: 0 <= k < |items| ==> HasRequiredFields(items[k]) ==> Settled(articles, items[k])
    ensures IngestItems(articles, catalog, items, sourceId, env) == Batch(articles, 0)
    decreases |items|
  {
    if items != [] {
      NothingNewChangesNothing(articles, catalog, items[..|items| - 1], sourceId, env);
    }
  }

  /**
   * After the loop, every valid item whose URL the store does not refuse is
   * settled: stored, or refused because a stored article has its slug.
   */
  lemma {:induction false} IngestStoresValidItems(
    articles: map<Text, Article>, catalog: Catalog, items: seq<Item>, sourceId: Text, env: Env)
    ensures var b := IngestItems(articles, catalog, items, sourceId, env);
      forall k :: 0 <= k < |items| && HasRequiredFields(items[k]) && items[k].link.value !in env.failingWrites ==>
        Settled(b.articles, items[k])
    decreases |items|
  {
    if items != [] {
      var init := items[..|items| - 1];
      var before := IngestItems(articles, catalog, init, sourceId, env);
      var o := Decide(before.articles, catalog, items[|items| - 1], sourceId, env);
      var b := IngestItems(articles, catalog, items, sourceId, env);
      IngestStoresValidItems(articles, catalog, init, sourceId, env);
      assert b.articles == Record(before.articles, o);
      forall k | 0 <= k < |items| && HasRequiredFields(items[k]) && items[k].link.value !in env.failingWrites
        ensures Settled(b.articles, items[k])
      {
        if k < |items| - 1 {
          assert items[k] == init[k];
          SettledStays(before.articles, o, items[k]);
        } else {
          DecideSettles(before.articles, catalog, items[k], sourceId, env);
        }
      }
    }
  }

  /**
   * Ingesting the same items again creates nothing and writes nothing, at
   * any later time, provided the store accepted every write the first time.
   */
  lemma ReingestCreatesNothing(
    articles: map<Text, Article>, catalog: Catalog, items: seq<Item>, sourceId: Text, env: Env, later: Env)
    requires forall k :: 0 <= k < |items| && HasRequiredFields(items[k]) ==> items[k].link.value !in env.failingWrites
    ensures var first := IngestItems(articles, catalog, items, sourceId, env);
      IngestItems(first.articles, catalog, items, sourceId, later) == Batch(first.articles, 0)
  {
    var first := IngestItems(articles, catalog, items, sourceId, env);
    IngestStoresValidItems(articles, catalog, items, sourceId, env);
    NothingNewChangesNothing(first.articles, catalog, items, sourceId, later);
  }

  /** The loop over `xs + ys` is the loop over `xs` followed by the loop over `ys`. */
  lemma {:induction false} IngestItemsAppend(
    articles: map<Text, Article>, catalog: Catalog, xs: seq<Item>, ys: seq<Item>, sourceId: Text, env: Env)
    ensures var first := IngestItems(articles, catalog, xs, sourceId, env);
      var second := IngestItems(first.articles, catalog, ys, sourceId, env);
      IngestItems(articles, catalog, xs + ys, sourceId, env) == Batch(second.articles, first.created + second.created)
    decreases |ys|
  {
    if ys == [] {
      assert xs + ys == xs;
    } else {
      assert (xs + ys)[..|xs + ys| - 1] == xs + ys[..|ys| - 1];
      assert (xs + ys)[|xs + ys| - 1] == ys[|ys| - 1];
      IngestItemsAppend(articles, catalog, xs, ys[..|ys| - 1], sourceId, env);
    }
  }

  /**
   * An item that is not created (invalid, duplicate, or its write failed)
   * leaves the rest of the loop exactly as if it had not been in the feed.
   */
  lemma SkippedItemIsIsolated(
    articles: map<Text, Article>, catalog: Catalog, xs: seq<Item>, x: Item, ys: seq<Item>, sourceId: Text, env: Env)
    requires !Decide(IngestItems(articles, catalog, xs, sourceId, env).articles, catalog, x, sourceId, env).Created?
    ensures IngestItems(articles, catalog, xs + [x] + ys, sourceId, env)
         == IngestItems(articles, catalog, xs + ys, sourceId, env)
  {
    var first := IngestItems(articles, catalog, xs, sourceId, env);
    IngestItemsAppend(articles, catalog, xs, [x], sourceId, env);
    assert IngestItems(first.articles, catalog, [x], sourceId, env) == Batch(first.articles, 0) by {
      assert [x][..0] == [];
    }
    IngestItemsAppend(articles, catalog, xs + [x], ys, sourceId, env);
    IngestItemsAppend(articles, catalog, xs, ys, sourceId, env);
  }

  /* ---------------- Properties of the source-level runs ---------------- */

  /** With unique ids, looking a listed source up by its id finds that source. */
  lemma {:induction false} FindListedSource(sources: seq<Source>, source: Source)
    requires UniqueSourceIds(sources) && source in sources
    ensures FindSource(sources, source.id) == Some(source)
  {
    var r := FindSource(sources, source.id);
    var k :| 0 <= k < |sources| && sources[k] == source;
    assert r.Some?;
    var j :| 0 <= j < |sources| && sources[j] == r.value;
    assert j == k;
  }

  /** An inactive source is skipped with count 0, before anything is fetched. */
  lemma InactiveSourceIsSkipped(articles: map<Text, Article>, catalog: Catalog, source: Source, env: Env)
    requires UniqueSourceIds(catalog.sources) && source in catalog.sources && !source.isActive
    ensures IngestSource(articles, catalog, source.id, env) == SourceRun(Ok(0), articles)
  {
    FindListedSource(catalog.sources, source);
  }

  /** A feed that cannot be fetched or parsed fails the whole source and writes nothing. */
  lemma FetchFailurePropagates(articles: map<Text, Article>, catalog: Catalog, source: Source, env: Env)
    requires UniqueSourceIds(catalog.sources) && source in catalog.sources && source.isActive
    requires Fetch(env, source.rssFeedUrl).Unreachable?
    ensures IngestSource(articles, catalog, source.id, env) == SourceRun(Err(FetchError(source.rssFeedUrl)), articles)
  {
    FindListedSource(catalog.sources, source);
  }

  /** An active source with a parsed feed counts exactly the articles the item loop created. */
  lemma ActiveSourceCountsCreated(articles: map<Text, Article>, catalog: Catalog, source: Source, env: Env)
    requires UniqueSourceIds(catalog.sources) && source in catalog.sources && source.isActive
    requires Fetch(env, source.rssFeedUrl).Parsed?
    ensures var b := IngestItems(articles, catalog, Fetch(env, source.rssFeedUrl).items, source.id, env);
      IngestSource(articles, catalog, source.id, env) == SourceRun(Ok(b.created), b.articles)
      && b.created <= |Fetch(env, source.rssFeedUrl).items|
  {
    FindListedSource(catalog.sources, source);
  }

  /**
   * Running a source a second time over the same feed creates 0 articles and
   * leaves the store as the first run left it.
   */
  lemma ReingestSourceCreatesNothing(
    articles: map<Text, Article>, catalog: Catalog, source: Source, env: Env, later: Env)
    requires UniqueSourceIds(catalog.sources) && source in catalog.sources
    requires Fetch(later, source.rssFeedUrl) == Fetch(env, source.rssFeedUrl)
    requires Fetch(env, source.rssFeedUrl).Parsed?
    requires var items := Fetch(env, source.rssFeedUrl).items;
      forall k :: 0 <= k < |items| && HasRequiredFields(items[k]) ==> items[k].link.value !in env.failingWrites
    ensures var first := IngestSource(articles, catalog, source.id, env);
      IngestSource(first.articles, catalog, source.id, later) == SourceRun(Ok(0), first.articles)
  {
    FindListedSource(catalog.sources, source);
    if source.isActive {
      ReingestCreatesNothing(articles, catalog, Fetch(env, source.rssFeedUrl).items, source.id, env, later);
    }
  }

  /** Running over a prefix of the sources yields a prefix of the results. */
  lemma {:induction false} IngestAllPrefix(
    articles: map<Text, Article>, catalog: Catalog, active: seq<Source>, env: Env, n: nat)
    requires n <= |active|
    ensures IngestAll(articles, catalog, active[..n], env).results
         <= IngestAll(articles, catalog, active, env).results
    decreases |active|
  {
    if n < |active| {
      assert active[..|active| - 1][..n] == active[..n];
      IngestAllPrefix(articles, catalog, active[..|active| - 1], env, n);
    } else {
      assert active[..n] == active;
    }
  }

  /**
   * Entry `k` of `ingestFromAllSources` is source `k`'s name with the count
   * of its own run, made on the table the earlier sources left; a run that
   * threw counts 0.
   */
  lemma IngestAllEntry(articles: map<Text, Article>, catalog: Catalog, active: seq<Source>, env: Env, k: nat)
    requires k < |active|
    ensures var before := IngestAll(articles, catalog, active[..k], env);
      var run := IngestSource(before.articles, catalog, active[k].id, env);
      IngestAll(articles, catalog, active, env).results[k]
        == SourceCount(active[k].name, if run.result.Ok? then run.result.value else 0)
  {
    var before := IngestAll(articles, catalog, active[..k], env);
    var run := IngestSource(before.articles, catalog, active[k].id, env);
    var entry := SourceCount(active[k].name, if run.result.Ok? then run.result.value else 0);
    var short := IngestAll(articles, catalog, active[..k + 1], env).results;
    assert short[k] == entry by {
      IngestAllStep(articles, catalog, active, env, k);
      assert short == AllStep(before, catalog, active[k], env).results;
      assert AllStep(before, catalog, active[k], env).results == before.results + [entry];
    }
    assert IngestAll(articles, catalog, active, env).results[k] == short[k] by {
      IngestAllPrefix(articles, catalog, active, env, k + 1);
    }
  }

  /**
   * In `ingestFromAllSources`, a source whose feed cannot be fetched is
   * reported with count 0, and the sources after it still get their entries.
   */
  lemma FailingSourceCountsZero(articles: map<Text, Article>, catalog: Catalog, env: Env, k: nat)
    requires UniqueSourceIds(catalog.sources)
    requires k < |ActiveSources(catalog.sources)|
    requires Fetch(env, ActiveSources(catalog.sources)[k].rssFeedUrl).Unreachable?
    ensures var run := IngestAll(articles, catalog, ActiveSources(catalog.sources), env);
      |run.results| == |ActiveSources(catalog.sources)| && run.results[k].count == 0
  {
    var active := ActiveSources(catalog.sources);
    var source := active[k];
    assert source in active;
    ActiveSourcesMembers(catalog.sources, source);
    IngestAllEntry(articles, catalog, active, env, k);
    var before := IngestAll(articles, catalog, active[..k], env);
    FetchFailurePropagates(before.articles, catalog, source, env);
  }
}
