# RSS ingestion service, modelled in Dafny

This project models `IngestionService` from `apps/api/src/ingestion/ingestion.service.ts`.
That service pulls the RSS feed of each news source and turns feed items into
articles in the store. For each item it:

- validates the item;
- derives the content and the excerpt;
- stamps the publication and fetch times;
- classifies the item as a newsflash (published within the last ten minutes, bound inclusive);
- generates a URL slug from the title;
- matches a category from the item's first RSS tag;
- refuses an item whose `originalUrl` is already stored.

Two loops drive this:

- `ingestFromSource` counts the articles created for one source. A failing item does not stop the loop.
- `ingestFromAllSources` yields one `{source, count}` entry per active source. A source that throws is reported with count 0.

Files and modules:

- `text.dfy` (module `Text`): ASCII models of `toLowerCase`, `trim`, `substring`, `\w` and `\s`, and the substring test behind the store's `contains` filter.
- `slug.dfy` (module `Slug`): `generateSlug` as a pipeline of pure stages, and the proofs of the slug's shape and idempotence.
- `slug_example.dfy` (module `SlugExample`): the slug of "Hello, World! 2024", worked out stage by stage.
- `records.dfy` (module `Records`): RSS items, sources, categories and articles. It also holds the outside world of a run (`Env`):
  - the clock, in milliseconds;
  - the parsed feed behind each URL, where a URL that is not listed cannot be fetched;
  - the `originalUrl`s whose article write the store rejects.
- `pipeline.dfy` (module `Pipeline`): the service's decisions as functions of the tables and of `Env`, and the lemmas about them:
  - the per-item outcome, `Decide`;
  - the item loop, `IngestItems`;
  - the single-source run, `IngestSource`;
  - the all-source loop, `IngestAll`.
- `service.dfy` (module `Service`): the class `IngestionService`. It owns the article table (a map keyed by `originalUrl`, whose `slug` column is unique too, so a slug collision makes `article.create` throw), the sources, the categories (in the order `findFirst` scans them) and the source–category links. Its methods run the source's steps in order, with `while` loops for the two `for` loops, and are proved equal to the `Pipeline` functions.

## Model

All source cells refer to `apps/api/src/ingestion/ingestion.service.ts`.

| member | source | states |
|---|---|---|
| Text.Lower | apps/api/src/ingestion/ingestion.service.ts:159 | the result is never upper case; an upper-case letter maps to the lower-case letter at the same position in the alphabet; every other character is unchanged |
| Text.LowerText | apps/api/src/ingestion/ingestion.service.ts:174 | same length as the input, lower-cased character by character, with no upper-case letter left |
| Text.TrimStart | apps/api/src/ingestion/ingestion.service.ts:160 | the result is a suffix of the input that does not start with white space, and everything dropped before it is white space |
| Text.TrimEnd | apps/api/src/ingestion/ingestion.service.ts:160 | the result is a prefix of the input that does not end with white space, and everything dropped after it is white space |
| Text.Trim | apps/api/src/ingestion/ingestion.service.ts:160 | the result is a contiguous piece of the input with only white space dropped before and after it, and no white space left at either end |
| Text.TrimUnchanged | apps/api/src/ingestion/ingestion.service.ts:160 | a text that neither starts nor ends with white space is its own trim |
| Text.TrimKeeps | apps/api/src/ingestion/ingestion.service.ts:160 | trimming keeps any character class the input satisfies |
| Text.EveryDrop | apps/api/src/ingestion/ingestion.service.ts:160 | dropping a prefix keeps any character class the text satisfies |
| Text.EveryTake | apps/api/src/ingestion/ingestion.service.ts:160 | taking a prefix keeps any character class the text satisfies |
| Text.Prefix | apps/api/src/ingestion/ingestion.service.ts:141 | `substring(0, n)` yields a prefix of length min(n, length) |
| Text.TailSlice | apps/api/src/ingestion/ingestion.service.ts:179 | a slice of the tail is the slice one place further on in the text, the step of the substring search |
| Text.ContainsIff | apps/api/src/ingestion/ingestion.service.ts:179 | the recursive `contains` test holds exactly when the tag occurs at some index of the slug |
| Slug.Strip | apps/api/src/ingestion/ingestion.service.ts:161 | removing characters never makes the text longer; with `StripDropsOthers`, `StripKeepsKept` and `StripAppend` this fixes the stage completely |
| Slug.StripOnlyKept | apps/api/src/ingestion/ingestion.service.ts:161 | after `replace(/[^\w\s-]/g, '')` only word characters, white space and hyphens are left |
| Slug.StripKeepsKept | apps/api/src/ingestion/ingestion.service.ts:161 | a text of word characters, white space and hyphens only passes through unchanged |
| Slug.StripDropsOthers | apps/api/src/ingestion/ingestion.service.ts:161 | a text with no word character, white space or hyphen is stripped to nothing: a removed character leaves no trace |
| Slug.StrippedIsSlugOrSpace | apps/api/src/ingestion/ingestion.service.ts:159-161 | a lower-cased, stripped text holds only slug characters and white space |
| Slug.ReplaceRuns | apps/api/src/ingestion/ingestion.service.ts:162-163 | replacing runs never makes the text longer; with `RunBecomesOneHyphen`, `ReplaceRunsWithoutRun` and `ReplaceRunsAppend` this fixes the stage completely |
| Slug.RunBecomesOneHyphen | apps/api/src/ingestion/ingestion.service.ts:162-163 | a non-empty run of the class becomes exactly one `-`, and writes nothing when it continues a run already replaced |
| Slug.RunContinues | apps/api/src/ingestion/ingestion.service.ts:162-163 | inside a run, further characters of the class write nothing |
| Slug.ReplaceRunsKeeps | apps/api/src/ingestion/ingestion.service.ts:162-163 | run replacement writes only `-` and characters of its input |
| Slug.ReplaceRunsRemoves | apps/api/src/ingestion/ingestion.service.ts:162 | no character of the replaced class survives, except `-` itself |
| Slug.ReplaceRunsWithoutRun | apps/api/src/ingestion/ingestion.service.ts:162 | a text with no character of the class is unchanged |
| Slug.SquashedHasNoDoubleHyphen | apps/api/src/ingestion/ingestion.service.ts:163 | after `replace(/-+/g, '-')` no two hyphens are adjacent |
| Slug.SquashKeepsSingleHyphens | apps/api/src/ingestion/ingestion.service.ts:163 | a text without adjacent hyphens is unchanged by the squash |
| Slug.PrefixKeepsShape | apps/api/src/ingestion/ingestion.service.ts:164 | cutting to 100 characters keeps the slug alphabet and the lack of `--` |
| Slug.LowerFixesSlugChars | apps/api/src/ingestion/ingestion.service.ts:159 | lower-casing leaves slug characters unchanged |
| Slug.TrimFixesSlugChars | apps/api/src/ingestion/ingestion.service.ts:160 | trimming leaves a text of slug characters unchanged |
| Slug.GenerateSlug | apps/api/src/ingestion/ingestion.service.ts:157-165 | every slug has at most 100 characters, all in `[a-z0-9_-]`, with no white space and no `--` |
| Slug.SlugShape | apps/api/src/ingestion/ingestion.service.ts:157-165 | after stripping only slug characters and white space are left; after `\s+` is replaced only slug characters; after `-+` is squashed also no `--`; after the cut also at most 100 characters |
| Slug.Hyphenate | apps/api/src/ingestion/ingestion.service.ts:162 | `replace(/\s+/g, '-')` leaves no white space |
| Slug.Squash | apps/api/src/ingestion/ingestion.service.ts:163 | `replace(/-+/g, '-')` leaves no two hyphens adjacent |
| Slug.SlugIsFixedPoint | apps/api/src/ingestion/ingestion.service.ts:157-165 | any text of slug shape is its own slug |
| Slug.SlugIdempotent | apps/api/src/ingestion/ingestion.service.ts:157-165 | generating a slug from a slug changes nothing |
| Slug.StripAppend | apps/api/src/ingestion/ingestion.service.ts:161 | stripping distributes over concatenation |
| Slug.ReplaceRunsAppend | apps/api/src/ingestion/ingestion.service.ts:162-163 | run replacement on `a + b` is replacement on `a`, then on `b` in the run state `a` ends in |
| SlugExample.ExampleLowered | apps/api/src/ingestion/ingestion.service.ts:159 | "Hello, World! 2024" lower-cases to "hello, world! 2024" |
| SlugExample.ExampleTrimmed | apps/api/src/ingestion/ingestion.service.ts:160 | trimming leaves "hello, world! 2024" unchanged |
| SlugExample.ExampleStripped | apps/api/src/ingestion/ingestion.service.ts:161 | stripping "hello, world! 2024" gives "hello world 2024" |
| SlugExample.ExampleHyphenated | apps/api/src/ingestion/ingestion.service.ts:162 | the spaces of "hello world 2024" become hyphens |
| SlugExample.ExampleSquashed | apps/api/src/ingestion/ingestion.service.ts:163 | "hello-world-2024" has no hyphen run to squash |
| SlugExample.SlugExample | apps/api/src/ingestion/ingestion.service.ts:157-165 | the title "Hello, World! 2024" yields the slug "hello-world-2024" |
| Pipeline.FirstTruthyIsFirst | apps/api/src/ingestion/ingestion.service.ts:108-109 | `FirstTruthy`, the chain of JavaScript or-operators ending in `''`, is empty exactly when no field is truthy; otherwise it is the first truthy field |
| Pipeline.FindFirstCategory | apps/api/src/ingestion/ingestion.service.ts:177-181 | `findFirst` returns the first category, in table order, whose slug contains the tag, or none when no slug contains it |
| Pipeline.FirstTag | apps/api/src/ingestion/ingestion.service.ts:173-174 | the first tag is absent exactly when the item has no categories; otherwise it is the first category lower-cased character by character |
| Pipeline.MatchCategoryIsFirstLinked | apps/api/src/ingestion/ingestion.service.ts:171-202 | `MatchCategory` returns an id exactly when the item has a first tag, some category's slug contains it, and the source is linked to the first such category; the id is that category's |
| Pipeline.Decide | apps/api/src/ingestion/ingestion.service.ts:96-152 | the outcome is "invalid" iff link, title or contentSnippet is falsy, and "duplicate" iff the item is valid and its link is stored. Writing fails iff the item is valid, not stored, and either the store rejects its URL's write or a stored article already has its slug. A created article is stored under its own, new link, has a slug no stored article has, and belongs to the source |
| Pipeline.CreatedArticle | apps/api/src/ingestion/ingestion.service.ts:106-149 | the article `NewArticle` builds for a created outcome has the columns listed under "Created article" below this table |
| Pipeline.ValidationGate | apps/api/src/ingestion/ingestion.service.ts:101 | `HasRequiredFields`: the item is skipped as invalid exactly when `link`, `title` or `contentSnippet` is missing or empty |
| Pipeline.NewsflashWindowIsInclusive | apps/api/src/ingestion/ingestion.service.ts:129-130 | an item exactly 600000 ms old is a newsflash; one 601000 ms old is not |
| Pipeline.UndatedItemIsNewsflash | apps/api/src/ingestion/ingestion.service.ts:112-114 | an item without `pubDate` is stamped with `now` and is always a newsflash |
| Pipeline.NewsflashWithinWindow | apps/api/src/ingestion/ingestion.service.ts:129-130 | `IsNewsflash`: published at most 600000 ms before `now`, bound included |
| Pipeline.Reply | apps/api/src/ingestion/ingestion.service.ts:99-151 | `Ok(true)` iff the outcome is a creation, `Ok(false)` iff the item was invalid or a duplicate, and an error iff the write threw |
| Pipeline.RecordStep | apps/api/src/ingestion/ingestion.service.ts:136-149 | recording an outcome keeps every stored URL and its article, adds one row exactly when an article was created, and keeps `originalUrl` and `slug` unique |
| Pipeline.IngestItems | apps/api/src/ingestion/ingestion.service.ts:42-54 | the item loop never creates more articles than there are items; the table keeps its URLs and grows by exactly the created count; `originalUrl` stays unique, and so does `slug` when it was |
| Pipeline.ItemStep | apps/api/src/ingestion/ingestion.service.ts:43-53 | one iteration of the item loop keeps every stored URL, counts at most one more article, and grows the table by exactly the count it adds |
| Pipeline.IngestItemsStep | apps/api/src/ingestion/ingestion.service.ts:42-54 | the loop over the first i + 1 items is one more `ItemStep` after the loop over the first i |
| Pipeline.IngestItemsKeepsStored | apps/api/src/ingestion/ingestion.service.ts:42-54 | every stored article stays as it was; each new article belongs to the source and is stored under the link of one of the items |
| Pipeline.SlugStaysTaken | apps/api/src/ingestion/ingestion.service.ts:136-149 | a slug some stored article has is still taken after any outcome is recorded |
| Pipeline.SettledStays | apps/api/src/ingestion/ingestion.service.ts:119-149 | an item whose link is stored or whose slug is taken stays so after any outcome is recorded |
| Pipeline.DecideSettles | apps/api/src/ingestion/ingestion.service.ts:119-151 | after a valid item whose URL's write the store accepts is decided and recorded, its link is stored or its slug is taken |
| Pipeline.NothingNewChangesNothing | apps/api/src/ingestion/ingestion.service.ts:100-104 | items that are all invalid or settled (their link is stored, or a stored article has their slug) create nothing and leave the table unchanged, even when `content` or `description` is present |
| Pipeline.IngestStoresValidItems | apps/api/src/ingestion/ingestion.service.ts:136-151 | after the loop, every valid item whose URL's write the store accepts is settled: its link is stored, or a stored article has its slug, so its write was refused for the collision |
| Pipeline.ReingestCreatesNothing | apps/api/src/ingestion/ingestion.service.ts:119-126 | running the same items again, at any later time, creates 0 articles and writes nothing, provided the store accepted every write of the first run (no valid item's link is in `failingWrites`) |
| Pipeline.IngestItemsAppend | apps/api/src/ingestion/ingestion.service.ts:42-54 | the loop over `xs + ys` is the loop over `xs` followed by the loop over `ys`, and the counts add up |
| Pipeline.SkippedItemIsIsolated | apps/api/src/ingestion/ingestion.service.ts:43-53 | an item that is not created (invalid, duplicate, or its write threw) leaves the rest of the loop as if it were absent |
| Pipeline.FindSource | apps/api/src/ingestion/ingestion.service.ts:19-21 | the lookup returns a listed source with the requested id, or none when no source has it |
| Pipeline.FindListedSource | apps/api/src/ingestion/ingestion.service.ts:19-21 | with unique ids, a listed source is found by its id |
| Pipeline.IngestSource | apps/api/src/ingestion/ingestion.service.ts:17-65 | the result is "source not found" iff no source has the id; an error leaves the table unchanged; a count equals the number of articles added; `originalUrl` stays unique |
| Pipeline.InactiveSourceIsSkipped | apps/api/src/ingestion/ingestion.service.ts:27-30 | an inactive source returns 0 without fetching and leaves the table unchanged |
| Pipeline.FetchFailurePropagates | apps/api/src/ingestion/ingestion.service.ts:61-64 | a feed that cannot be fetched fails the source with a fetch error and writes nothing |
| Pipeline.ActiveSourceCountsCreated | apps/api/src/ingestion/ingestion.service.ts:38-60 | an active source with a parsed feed returns the item loop's created count, which is at most the number of items |
| Pipeline.ReingestSourceCreatesNothing | apps/api/src/ingestion/ingestion.service.ts:17-65 | ingesting a source a second time over the same feed returns 0 and leaves the table as the first run left it, provided its feed parsed and the store accepted every write of the first run |
| Pipeline.ActiveSources | apps/api/src/ingestion/ingestion.service.ts:71-73 | there are never more active sources than sources |
| Pipeline.ActiveSourcesMembers | apps/api/src/ingestion/ingestion.service.ts:71-73 | the active sources are exactly the listed sources with `isActive` set |
| Pipeline.IngestAll | apps/api/src/ingestion/ingestion.service.ts:70-88 | one entry per active source, named after it, in order; `originalUrl` stays unique |
| Pipeline.AllStep | apps/api/src/ingestion/ingestion.service.ts:78-84 | one iteration of the source loop keeps the earlier entries and appends exactly one, named after the source |
| Pipeline.IngestAllStep | apps/api/src/ingestion/ingestion.service.ts:77-85 | the run over the first i + 1 sources is one more `AllStep` after the run over the first i |
| Pipeline.IngestAllGrowth | apps/api/src/ingestion/ingestion.service.ts:70-88 | stored URLs are kept, and the table grows by the sum of the reported counts |
| Pipeline.IngestAllPrefix | apps/api/src/ingestion/ingestion.service.ts:77-85 | running over a prefix of the sources yields a prefix of the results |
| Pipeline.IngestAllEntry | apps/api/src/ingestion/ingestion.service.ts:77-85 | entry `k` is source `k`'s name with the count of its own run, made on the table the earlier sources left; a run that threw counts 0 |
| Pipeline.FailingSourceCountsZero | apps/api/src/ingestion/ingestion.service.ts:81-84 | a source whose feed cannot be fetched is reported with count 0, and every active source still has its entry |
| Service.IngestionService.constructor | apps/api/src/ingestion/ingestion.service.ts:11 | the service starts over the given tables, with unique `originalUrl`s, unique slugs and unique source ids |
| Service.IngestionService.CreateArticleFromRssItem | apps/api/src/ingestion/ingestion.service.ts:96-152 | the table becomes the one `Decide` prescribes. The result is `Ok(true)` iff an article was created, `Ok(false)` iff the item was invalid or a duplicate, and an error iff the write failed |
| Service.IngestionService.CreateArticle | apps/api/src/ingestion/ingestion.service.ts:136-149 | the row is inserted under its `originalUrl` exactly when the store accepts the URL's write and no stored article has the row's slug; otherwise the table is unchanged |
| Service.IngestionService.IngestFromSource | apps/api/src/ingestion/ingestion.service.ts:17-65 | the result and the new table are those of `IngestSource` on the old table; the store's constraints are kept |
| Service.IngestionService.IngestFromAllSources | apps/api/src/ingestion/ingestion.service.ts:70-88 | the results and the new table are those of `IngestAll` over the active sources, one entry per active source in table order, named after it |

Created article (`Pipeline.CreatedArticle`):

- `originalUrl` is the item's link, which was not stored before;
- `title` is the item's title, and `slug` is `generateSlug(title)`, which has slug shape and which no stored article had;
- `content` is `content` if truthy, else `contentSnippet`, so it is never empty;
- `excerpt` is the first min(500, length) characters of `contentSnippet`;
- `sourceId` is the source being ingested, and `categoryId` is what `MatchCategory` returns;
- `fetchedAt` is `now`;
- `rssPublishedAt` is `pubDate`, or `now` when there is none;
- `isNewsflash` holds iff `now - rssPublishedAt <= 600000`.

## Left out

- Network fetching and XML parsing by `rss-parser` (lines 3-5, 36) are not modelled. `Records.Fetch` stands in for `parser.parseURL`: the parsed feed behind each URL is part of `Env`, and a URL that is not listed there is a fetch or parse failure. `feed.items || []` is modelled as the parsed item list.
- Date parsing (`new Date(item.pubDate)`, line 113), including invalid dates, is not modelled. `pubDate` is an optional integer timestamp in milliseconds.
- The whole run is stamped and classified against one instant, `Env.now`: every item of every source shares it. The source reads `Date.now()` afresh for each item (lines 114, 129 and 144), after the earlier items' store calls and the earlier sources' network fetches. So an item published ten minutes before the run starts, but processed a minute later, is a newsflash in the model and not in the source; `fetchedAt` likewise is the run's start, not the moment of the write.
- Unicode case mapping and white space are not modelled. `toLowerCase`, `trim` and `\s` cover ASCII only. A non-ASCII space such as U+00A0 is not trimmed, and line 161 removes it in the model, where the source keeps it as `\s` and line 162 turns it into a hyphen: "a\u00A0b" gives the slug "ab" in the model and "a-b" in the source. Non-ASCII letters are not lower-cased. That matters for the tag matched at line 174. It also matters for slugs when a letter's lower case is ASCII: `toLowerCase` turns U+0130 'İ' into 'i' followed by U+0307, and the Kelvin sign U+212A into 'k'. That ASCII letter survives line 161 in the source, so "İstanbul" gives the slug "istanbul" there. The model leaves 'İ' as it is and line 161 removes it, giving "stanbul". Other non-ASCII letters are removed by line 161 in both.
- `substring` (lines 141 and 164) counts UTF-16 code units, while `Text.Prefix` counts characters. An excerpt holding characters outside the Basic Multilingual Plane, such as emoji, keeps up to 500 characters in the model where the source keeps 500 code units (and may split a surrogate pair). Slugs are unaffected, since only ASCII characters reach line 164, in the source and in the model.
- RSS category tags are strings. A non-string first tag, which would make `toLowerCase` throw at line 174, is not modelled.
- The store's `contains` filter is a case-sensitive substring test. `findFirst` is taken to scan categories in table order; the model does not choose any other database order.
- `source.findMany` at lines 71-73 has no `orderBy`, so the database may return the active sources in any order. `Pipeline.ActiveSources` takes them in table order, and the order of the results of `ingestFromAllSources` is proved only relative to that order.
- Store failures are fixed per `originalUrl` for the whole run (`Env.failingWrites`). A write that fails for a URL fails again on every later attempt in the same run: the same link appearing twice in one feed, or in the feeds of two active sources. In the source each `article.create` (line 136) can fail or succeed on its own, so a retry of the link may create the article. For the feed [x, x] with x's write failing, the model creates 0 articles where the source may create 1.
- A slug collision is the one store failure that depends on the table: `Pipeline.Decide` refuses the write when a stored article already has the new article's slug, as the unique `slug` column makes `article.create` throw. Two items with different links and titles that map to one slug ("Hello, World" and "hello world") give one article and one failure. Other failures of the store are those of `Env.failingWrites`.
- Store failures occur only at the article write. Errors thrown by the duplicate lookup or by the category queries (lines 120, 177, 185) are lumped into that one failure, with the same effect: the item is counted neither created nor skipped.
- `createArticleFromRSSItem` derives `content`, `excerpt`, `rssPublishedAt` and the slug before the duplicate lookup (lines 106-117). `Service.IngestionService.CreateArticleFromRssItem` derives them with `Pipeline.NewArticle` after the lookup. These derivations are pure, so the order makes no difference except for the clock reads noted above.
- Logging is not modelled. `skippedCount` is kept in the loop but is only ever logged.
- `async`/`await` is not modelled: the source awaits every call in sequence, so the model runs sequentially.
- The generated article `id`, `publishedAt` and other columns the store fills by default are not modelled.
- `ingestFromFeed` and `ingestFromAllFeeds`, which `ingestion.controller.ts` calls, are not part of the service, so they are not part of this model. The controllers, the other services, the mappers and the web app are not part of this model either.
