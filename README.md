# NLP article service: entity filtering, article cache, listing, truncation

This project models in Dafny the self-contained logic of the Python NLP web service
(`backend/main.py`) that enriches news articles for the aggregator. It covers:

- **Entity filtering** (`filter_entities`). A comprehension drops the entities whose kind is
  excluded or whose text is too short. A loop then keeps the first entity for each
  (kind, lower-cased text) key. It is modelled as the method `Entities.FilterEntities`. The
  method is proved against the function `Entities.Dedup`. That function is proved equal to an
  independent reference, the subsequence of first occurrences (`Entities.FirstIndices`).
- **The article cache** (`article_cache`, `manage_cache_size`, `update_article_cache`,
  `process_article`). It is the class `Cache.ArticleCache`, with a `map` field that its methods
  update. Eviction is stated by the predicate `Cache.EvictsOldest`. A cache within
  `CACHE_SIZE` (100) is left alone. A larger one is cut to exactly 100 entries, and no evicted
  entry is newer than a survivor. The class invariant `Valid()` says the cache never holds more
  than 100 entries and every entry has both data and a timestamp. Every public method keeps it.
- **The cached-article listing** (`get_cached_articles`). A loop collects the entries that
  have data. They are sorted newest creation date first (the article date, else the cache
  time), and the page `[offset, offset + limit)` is returned with the total count.
- **Summary truncation** (the cut at the end of `summarize_text`). A summary that must be
  cut is reduced to `summary[:max_length]`, then back to the last space in it, and `...` is
  appended. The summary string is an input of the model (see "## Left out").
- **The keyword guard** (`extract_keywords`). Text shorter than 10 characters yields no
  keywords.

Everything outside this logic is a parameter. That covers the clock (`now`), the MD5 cache key
(`keyOf`), article fetching and NLP processing (`process`, with `None` for a failure) and the
keyword extractor (`extractor`). Timestamps and dates are whole seconds (`nat`) on one clock.

The repository's PHP feed-import code is not modelled.

Two behaviours of the source are made explicit:
- A negative `max_length` passes the truthiness test and cuts every summary. Python's slice
  then counts from the end and keeps all but the last `-max_length` characters. So the
  `max_length + 3` bound holds only for positive values
  (`Summaries.TruncateSummary`, `Summaries.NegativeMaxLengthSlicesFromTheEnd`).
- Every write stores both data and a timestamp. So the listing's "has data" filter drops
  nothing, and its total is the cache size (`Cache.CompleteCacheListsAll`).

## Model

| member | source | states |
|---|---|---|
| Entities.Lower | backend/main.py:364 | lower-casing keeps the length, leaves no upper-case ASCII letter, maps each upper-case letter to its lower-case partner and keeps every other character |
| Entities.KeyOf | backend/main.py:364 | the key keeps the entity's kind, and its text has the entity's text length and is already lower-case |
| Entities.SameKeyIffEqualIgnoringCase | backend/main.py:364-365 | two entities share a key, and so are duplicates, exactly when they have the same kind and texts of equal length that agree character by character once lower-cased |
| Entities.Filtered | backend/main.py:354-358 | an entity is in the result exactly when it is in the input, its kind is not excluded and its text is at least `min_length` long; the result is no longer than the input |
| Entities.AdmissibleIndices | backend/main.py:354-358 | reference for the comprehension: the positions holding an admissible entity, strictly increasing, containing every such position |
| Entities.FilteredKeepsOrder | backend/main.py:354-358 | the comprehension over the first n inputs is the input at the admissible positions below n, in increasing order |
| Entities.FilteredPicksAdmissible | backend/main.py:354-358 | the comprehension keeps input order and multiplicity: its result is the input at exactly its admissible positions, in order |
| Entities.FirstIndices | backend/main.py:360-369 | reference for de-duplication: the positions holding the first entity with its (kind, lower-cased text) key, strictly increasing, containing every such position |
| Entities.DedupUpTo | backend/main.py:361-367 | after n rounds the loop has kept at most n entities, each from the first n inputs |
| Entities.Dedup | backend/main.py:360-369 | the loop's full result is the input at its first-occurrence positions, in input order, and carries exactly the keys of the input |
| Entities.DedupKeys | backend/main.py:361-367 | after n rounds the keys of the kept entities are exactly the keys of the first n inputs (the `seen` set) |
| Entities.DedupKeepsFirstOccurrences | backend/main.py:360-369 | the loop's result is the subsequence of the input at the first-occurrence positions, in input order |
| Entities.DedupNoDuplicateKeys | backend/main.py:360-369 | no two entities of the result share a (kind, lower-cased text) key |
| Entities.DedupKeepsEveryKey | backend/main.py:360-369 | the result carries every key of the input, keeps every first occurrence, and holds only input entities |
| Entities.FilterEntities | backend/main.py:349-369 | the returned list is the de-duplication of the filtered entities (default options when none are given); every entity in it is admissible and from the input; no two share a key |
| Cache.OldestExists | backend/main.py:494 | every non-empty set of cache keys has an entry at least as old as all others (missing timestamp counts as 0) |
| Cache.OldestKeys | backend/main.py:494 | returns `count` distinct cache keys, none newer than any key left out: the head of the keys sorted by timestamp |
| Cache.RemovingOldestEvicts | backend/main.py:494-496 | deleting those keys from an over-full cache leaves exactly 100 unchanged entries, none older than a deleted one |
| Cache.ArticleCache.ManageCacheSize | backend/main.py:490-497 | the new cache is the old one with its oldest entries evicted (`EvictsOldest`): unchanged when within 100 entries, else exactly 100 surviving entries with their values |
| Cache.NewestSurvives | backend/main.py:547-551 | an entry written with a timestamp later than all others is still present, unchanged, after the trim that follows the write |
| Cache.ArticleCache.constructor | backend/main.py:43 | the cache starts empty and valid |
| Cache.ArticleCache.Store | backend/main.py:547-551 | writes a complete entry stamped `now` under the key and trims; the cache stays valid |
| Cache.ArticleCache.UpdateArticleCache | backend/main.py:500-512 | the background refresh stores the reprocessed article and trims; a processing failure leaves the cache unchanged |
| Cache.ArticleCache.ProcessArticle | backend/main.py:522-562 | with caching requested and the key present, the cache is unchanged and the stored data is served as cached, with a refresh scheduled exactly when the entry is older than 3600 s; otherwise a failure changes nothing and a success is served fresh, stored (even without caching requested) and trimmed |
| Cache.ArticleCache.CachedArticles | backend/main.py:571-633 | the total is the number of entries with data, which on a valid cache is the number of entries; the page has at most `limit` items, is empty when `offset` reaches the total, and is the slice `[offset, offset + limit)` of those entries sorted newest creation date first |
| Cache.ListedOf | backend/main.py:580-602 | the listing record of an entry with data holds its key, the article, the cache time (the timestamp, 0 when missing) and the creation date (the article's date when it has one, else the cache time) |
| Cache.CompleteCacheListsAll | backend/main.py:579-583 | when every entry has data, the listing counts every cache entry |
| Listing.InsertKeepsOrder | backend/main.py:605 | inserting into a newest-first list keeps it newest-first and adds exactly the new item |
| Listing.SortByCreationDesc | backend/main.py:605 | the sorted listing is newest creation date first and a permutation of its input |
| Listing.Page | backend/main.py:608-609 | a page holds at most `limit` items, none when `offset` is past the end, and otherwise the next `min(limit, total - offset)` items from `offset` in order |
| Listing.PagesConcatenate | backend/main.py:609 | two consecutive pages together are the page of their combined size |
| Listing.EarlierPagesAreNewer | backend/main.py:605-609 | on a sorted listing every item of an earlier page is at least as recent as every item of a later page |
| Summaries.PrefixSlice | backend/main.py:730 | Python's prefix slice yields a prefix of the string, of length `min(m, len)` for non-negative `m` and `max(0, len + m)` for negative `m` |
| Summaries.MustTruncate | backend/main.py:729 | an unset or zero `max_length` never cuts, a positive one cuts exactly a longer summary, and a negative one cuts every summary, even the empty one |
| Summaries.BeforeLastSpace | backend/main.py:730 | the right split at the last space yields a prefix; all of the string when it has no space, else the part just before its last space |
| Summaries.TruncateSummary | backend/main.py:729-730 | the summary is unchanged unless `max_length` is set, non-zero and exceeded; then the result is a prefix of it followed by `...`, and that prefix stops just before the last space in the head `summary[:max_length]` (or is all of the head when it has no space), the head being the first `max_length` characters for positive `max_length` and all but the last `-max_length` for negative; for positive `max_length` the result is at most `max_length + 3` long |
| Summaries.NegativeMaxLengthSlicesFromTheEnd | backend/main.py:729-730 | with `max_length = -1`, "abc def" becomes "abc...", longer than `max_length + 3` |
| Keywords.ExtractKeywords | backend/main.py:333-347 | empty text or text shorter than 10 characters yields no keywords, and so does a failing extractor; otherwise the extractor's pairs are returned in order as keywords |

## Left out

- Article fetching and the HTML fallback cleaning (`fetch_article`): network I/O and regex/HTML-unescape library behaviour; processing is the `process` parameter.
- spaCy parsing, VADER sentiment, YAKE scoring, displacy rendering and the social-media lookups: foreign libraries, network calls and floating-point scores.
- The concurrent task fan-out in `process_article_data` and its per-task defaults on exceptions: concurrency.
- The MD5 cache key: a foreign hash; it is the `keyOf` parameter.
- Scheduling of the background refresh: `ProcessArticle` reports it in `Reply.refresh`; running it later is `UpdateArticleCache`, and interleaving with other requests is not modelled.
- `time.time()` floats, `datetime.fromtimestamp` local time and the time-zone stripping of article dates: both are whole seconds on one clock.
- The summarizer call in `summarize_text` (backend/main.py:719-726): `_summarize` is declared `async`, so `asyncio.to_thread` returns an un-awaited coroutine rather than the summary, and `len` on it would raise and end in an HTTP 500 before the cut is reached. The model takes `summary` to be the string that `_summarize` returns, which is what the truncation lines are written for.
- The 422/500 distinction of the HTTP errors: both are `Reply.Failed`. The listing's own error path cannot arise in the model.
- The response formatting of the listing (`CachedArticleResponse` without the creation date); the page holds the full listing records.
- The 500000-character cap on text given to spaCy, the `filter_options` dependency that `process_article` accepts but does not use, and the Pydantic models, routing, CORS, lifespan, `NLPComponents`, `lru_cache`, health check and server start-up: framework glue.
- Entities.Lower: Python's `str.lower()` is modelled for ASCII letters only, because Unicode case mapping is a library table.
- Cache.ArticleCache.ManageCacheSize: which of several entries with equal timestamps is evicted is left open, because the source's order among them follows dict insertion order, which the map does not record.
- Cache.ArticleCache.CachedArticles: the order among entries with equal creation dates is left open, for the same reason.
- Listing.SortByCreationDesc: it is an insertion sort that, like Python's `sort(reverse=True)`, is stable (an item goes before the items of equal date that follow it); the contract states only that the result is newest-first and a permutation, because the collection order it starts from follows dict order, which the map does not record.
- Keywords.ExtractKeywords: the extractor's own limits (`top`, n-gram size, dedup threshold) are not modelled.
