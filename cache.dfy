/**
 * The in-memory article cache of the NLP service (`article_cache`), the
 * size bound kept after every write (`manage_cache_size`), the article
 * request handler's cache decision (`process_article`), the background
 * refresh (`update_article_cache`) and the cached-article listing
 * (`get_cached_articles`).
 *
 * The clock, the cache-key hash and the article processing are outside the
 * model: the current time is a parameter `now`, the key function and the
 * processing are function parameters (`None` standing for a processing
 * failure).
 */
module Cache {
  import opened Wrappers
  import opened Articles
  import opened Listing

  /** A cache key (the hex digest of the article URL). */
  type Key = string

  /** `CACHE_SIZE`: the number of articles kept. */
  const CacheSize: nat := 100

  /** A cached article is refreshed once it is older than this many seconds. */
  const RefreshAge: nat := 3600

  /** A cache value: the processed article and the time it was stored; the source's dict may lack either. */
  datatype Entry = Entry(data: Option<Article>, timestamp: Option<nat>)

  /** An entry's timestamp, 0 when it has none. */
  function Stamp(e: Entry): nat {
    e.timestamp.GetOr(0)
  }

  /** Both keys present, as every write into the cache leaves them. */
  predicate Complete(e: Entry) {
    e.data.Some? && e.timestamp.Some?
  }

  /**
   * `after` is `before` with its oldest entries evicted: nothing is added or
   * changed, a cache within the bound is left alone, a larger one is cut to
   * exactly `CacheSize` entries, and no evicted entry is newer than a
   * surviving one.
   */
  ghost predicate EvictsOldest(before: map<Key, Entry>, after: map<Key, Entry>) {
    && after.Keys <= before.Keys
    && (forall k :: k in after ==> after[k] == before[k])
    && (|before| <= CacheSize ==> after == before)
    && (|before| > CacheSize ==> |after| == CacheSize)
    && (forall r, s :: r in before && r !in after && s in after ==> Stamp(before[r]) <= Stamp(after[s]))
  }

  /** `k` is one of the keys `ks` of `m` whose entry is at least as old as all of theirs. */
  predicate IsOldest(m: map<Key, Entry>, ks: set<Key>, k: Key)
    requires ks <= m.Keys
  {
    k in ks && forall j :: j in ks ==> Stamp(m[k]) <= Stamp(m[j])
  }

  /** Every non-empty set of keys has an oldest entry. */
  lemma {:induction false} OldestExists(m: map<Key, Entry>, ks: set<Key>) returns (k: Key)
    requires ks <= m.Keys && ks != {}
    ensures IsOldest(m, ks, k)
    decreases |ks|
  {
    var k0 :| k0 in ks;
    var rest := ks - {k0};
    k := k0;
    if rest != {} {
      var k1 := OldestExists(m, rest);
      if Stamp(m[k1]) < Stamp(m[k0]) {
        k := k1;
      }
    }
  }

  /**
   * An entry written with a timestamp later than every other entry's
   * survives the eviction that follows the write.
   */
  lemma NewestSurvives(before: map<Key, Entry>, key: Key, e: Entry, after: map<Key, Entry>)
    requires forall k :: k in before && k != key ==> Stamp(before[k]) < Stamp(e)
    requires EvictsOldest(before[key := e], after)
    ensures key in after && after[key] == e
  {
  }

  /**
   * The listing record of an entry that has data: its key, its cache time
   * (the timestamp, 0 when missing), its creation date (the article's date
   * when it has one, else the cache time) and the article.
   */
  function ListedOf(k: Key, e: Entry): (r: Listed)
    requires e.data.Some?
    ensures r.key == k && r.article == e.data.value
    ensures e.timestamp.Some? ==> r.cachedAt == e.timestamp.value
    ensures e.timestamp.None? ==> r.cachedAt == 0
    ensures r.article.date.Some? ==> r.creation == r.article.date.value
    ensures r.article.date.None? ==> r.creation == r.cachedAt
  {
    var cachedAt := Stamp(e);
    var creation := match e.data.value.date
      case Some(d) => d
      case None => cachedAt;
    Listed(k, cachedAt, creation, e.data.value)
  }

  /** The listing records of the entries under `keys` that have data. */
  ghost function Collected(m: map<Key, Entry>, keys: set<Key>): set<Listed> {
    set k | k in keys && k in m && m[k].data.Some? :: ListedOf(k, m[k])
  }

  /** Collecting one more entry adds its listing record, if it has data, to what was collected. */
  lemma CollectStep(m: map<Key, Entry>, done: set<Key>, k: Key)
    requires k in m && k !in done
    ensures m[k].data.Some? ==>
      multiset(Collected(m, done + {k})) == multiset(Collected(m, done)) + multiset{ListedOf(k, m[k])}
    ensures m[k].data.None? ==> Collected(m, done + {k}) == Collected(m, done)
  {
    if m[k].data.Some? {
      var x := ListedOf(k, m[k]);
      assert Collected(m, done + {k}) == Collected(m, done) + {x};
      assert x !in Collected(m, done);
    } else {
      assert Collected(m, done + {k}) == Collected(m, done);
    }
  }

  /** `s` lists every cache entry that has data, newest creation date first. */
  ghost predicate IsListing(m: map<Key, Entry>, s: seq<Listed>) {
    SortedDesc(s) && multiset(s) == multiset(Collected(m, m.Keys))
  }

  /** When every entry is complete, the listing's total is the cache size. */
  lemma {:induction false} CompleteCacheListsAll(m: map<Key, Entry>)
    requires forall k :: k in m ==> Complete(m[k])
    ensures |Collected(m, m.Keys)| == |m|
    decreases |m|
  {
    if m != map[] {
      var k :| k in m;
      var rest := m - {k};
      assert rest.Keys == m.Keys - {k};
      CompleteCacheListsAll(rest);
      var x := ListedOf(k, m[k]);
      forall y | y in Collected(m, m.Keys) ensures y in Collected(rest, rest.Keys) + {x} {
        var j :| j in m.Keys && j in m && m[j].data.Some? && y == ListedOf(j, m[j]);
        if j != k {
          assert j in rest.Keys && rest[j] == m[j];
        }
      }
      forall y | y in Collected(rest, rest.Keys) + {x} ensures y in Collected(m, m.Keys) {
        if y != x {
          var j :| j in rest.Keys && j in rest && rest[j].data.Some? && y == ListedOf(j, rest[j]);
          assert j in m.Keys && m[j] == rest[j];
        }
      }
      assert Collected(m, m.Keys) == Collected(rest, rest.Keys) + {x};
      assert x !in Collected(rest, rest.Keys);
    }
  }

  /**
   * `keys` are distinct keys of `m` whose entries are no newer than any
   * entry of `m` left out of `keys`.
   */
  ghost predicate OldestFirst(m: map<Key, Entry>, keys: seq<Key>) {
    && (forall i, j :: 0 <= i < j < |keys| ==> keys[i] != keys[j])
    && (forall r :: r in keys ==> r in m)
    && (forall r, s :: r in keys && s in m && s !in keys ==> Stamp(m[r]) <= Stamp(m[s]))
  }

  /**
   * The first `count` keys of `m` in timestamp order: `count` distinct keys
   * whose entries are no newer than any entry left out. Each round takes an
   * oldest key of what remains, so the keys come out oldest first.
   */
  method OldestKeys(m: map<Key, Entry>, count: nat) returns (keys: seq<Key>)
    requires count <= |m|
    ensures |keys| == count
    ensures OldestFirst(m, keys)
  {
    keys := [];
    var rest := m.Keys;
    assert |m.Keys| == |m|;
    while |keys| < count
      invariant |keys| <= count
      invariant rest <= m.Keys
      invariant forall r :: r in m ==> (r in keys <==> r !in rest)
      invariant |rest| == |m.Keys| - |keys|
      invariant forall i, j :: 0 <= i < j < |keys| ==> keys[i] != keys[j]
      invariant forall r :: r in keys ==> r in m
      invariant forall r, s :: r in keys && s in rest ==> Stamp(m[r]) <= Stamp(m[s])
      decreases count - |keys|
    {
      ghost var oldest := OldestExists(m, rest);
      var k :| k in rest && forall j :: j in rest ==> Stamp(m[k]) <= Stamp(m[j]);
      assert rest == (rest - {k}) + {k};
      keys := keys + [k];
      rest := rest - {k};
    }
  }

  /** Deleting the keys that `OldestKeys` picks is an eviction of the oldest entries. */
  lemma RemovingOldestEvicts(before: map<Key, Entry>, keys: seq<Key>, after: map<Key, Entry>)
    requires |before| > CacheSize && |keys| == |before| - CacheSize
    requires OldestFirst(before, keys)
    requires after == before - KeysIn(keys)
    ensures EvictsOldest(before, after)
  {
    var removed := KeysIn(keys);
    assert after.Keys == before.Keys - removed;
    DistinctCard(keys);
    assert removed <= before.Keys;
    assert |after.Keys| == |before.Keys| - |removed|;
  }

  /** The keys listed in `keys`. */
  function KeysIn(keys: seq<Key>): set<Key> {
    set r | r in keys
  }

  /** One more deletion in the loop of `ManageCacheSize`. */
  lemma DeleteStep(before: map<Key, Entry>, keys: seq<Key>, i: nat)
    requires i < |keys|
    ensures (before - KeysIn(keys[..i])) - {keys[i]} == before - KeysIn(keys[..i + 1])
  {
    assert keys[..i + 1] == keys[..i] + [keys[i]];
    assert KeysIn(keys[..i + 1]) == KeysIn(keys[..i]) + {keys[i]};
  }

  lemma {:induction false} DistinctCard(keys: seq<Key>)
    requires forall i, j :: 0 <= i < j < |keys| ==> keys[i] != keys[j]
    ensures |KeysIn(keys)| == |keys|
  {
    if keys != [] {
      var init := keys[..|keys| - 1];
      DistinctCard(init);
      assert KeysIn(keys) == KeysIn(init) + {keys[|keys| - 1]};
    }
  }

  /** What the article request handler answers. */
  datatype Reply =
    | Served(data: Option<Article>, cached: bool, refresh: bool)  // `refresh`: a background update was scheduled
    | Failed                                                       // the HTTP error raised when processing fails

  class ArticleCache {
    var entries: map<Key, Entry>

    /** Every public operation leaves the cache within its bound, all entries complete. */
    ghost predicate Valid()
      reads this
    {
      |entries| <= CacheSize && forall k :: k in entries ==> Complete(entries[k])
    }

    constructor ()
      ensures Valid() && entries == map[]
    {
      entries := map[];
    }

    /**
     * `manage_cache_size`: when the cache is over its bound, delete the
     * `|entries| - CacheSize` keys with the smallest timestamps.
     */
    method ManageCacheSize()
      modifies this
      ensures EvictsOldest(old(entries), entries)
    {
      if |entries| > CacheSize {
        ghost var before := entries;
        var keysToRemove := OldestKeys(entries, |entries| - CacheSize);
        for i := 0 to |keysToRemove|
          invariant entries == before - KeysIn(keysToRemove[..i])
        {
          DeleteStep(before, keysToRemove, i);
          entries := entries - {keysToRemove[i]};
        }
        assert keysToRemove[..|keysToRemove|] == keysToRemove;
        RemovingOldestEvicts(before, keysToRemove, entries);
      }
    }

    /** Writes a complete entry for `a` stamped `now` under `key`, then trims the cache. */
    method Store(key: Key, a: Article, now: nat)
      requires Valid()
      modifies this
      ensures Valid()
      ensures EvictsOldest(old(entries)[key := Entry(Some(a), Some(now))], entries)
    {
      entries := entries[key := Entry(Some(a), Some(now))];
      ManageCacheSize();
    }

    /**
     * `update_article_cache`, the background refresh: process the article
     * again and store the result; a failure is logged and changes nothing.
     */
    method UpdateArticleCache(url: string, key: Key, now: nat, process: string -> Option<Article>)
      requires Valid()
      modifies this
      ensures Valid()
      ensures process(url).None? ==> entries == old(entries)
      ensures process(url).Some? ==> EvictsOldest(old(entries)[key := Entry(process(url), Some(now))], entries)
    {
      var result := process(url);
      if result.Some? {
        Store(key, result.value, now);
      }
    }

    /**
     * `process_article`: with caching requested and the key present, answer
     * from the cache, unchanged, and schedule a refresh when the entry is
     * older than `RefreshAge`; otherwise process the article, store it (even
     * when caching was not requested) and trim the cache.
     */
    method ProcessArticle(link: string, useCache: bool, now: nat, keyOf: string -> Key, process: string -> Option<Article>)
      returns (reply: Reply)
      requires Valid()
      modifies this
      ensures Valid()
      ensures useCache && keyOf(link) in old(entries) ==>
        && entries == old(entries)
        && reply == Served(old(entries)[keyOf(link)].data, true, now - Stamp(old(entries)[keyOf(link)]) > RefreshAge)
      ensures !(useCache && keyOf(link) in old(entries)) && process(link).None? ==>
        entries == old(entries) && reply == Failed
      ensures !(useCache && keyOf(link) in old(entries)) && process(link).Some? ==>
        && reply == Served(process(link), false, false)
        && EvictsOldest(old(entries)[keyOf(link) := Entry(process(link), Some(now))], entries)
    {
      var key := keyOf(link);
      if useCache && key in entries {
        var cachedItem := entries[key];
        var refresh := now - Stamp(cachedItem) > RefreshAge;
        return Served(cachedItem.data, true, refresh);
      }
      var result := process(link);
      if result.None? {
        return Failed;
      }
      Store(key, result.value, now);
      reply := Served(result, false, false);
    }

    /**
     * `get_cached_articles`: collect the entries that have data, sort them
     * newest creation date first, and return their number and the page
     * `[offset, offset + limit)`.
     */
    method CachedArticles(limit: nat, offset: nat) returns (total: nat, page: seq<Listed>)
      requires 1 <= limit <= 500
      ensures total == |Collected(entries, entries.Keys)|
      ensures |page| <= limit
      ensures offset >= total ==> page == []
      ensures exists s :: IsListing(entries, s) && page == Page(s, offset, limit)
      ensures Valid() ==> total == |entries|
    {
      var cachedArticles: seq<Listed> := [];
      var todo := entries.Keys;
      while todo != {}
        invariant todo <= entries.Keys
        invariant multiset(cachedArticles) == multiset(Collected(entries, entries.Keys - todo))
        decreases |todo|
      {
        var k :| k in todo;
        var item := entries[k];
        CollectStep(entries, entries.Keys - todo, k);
        if item.data.Some? {
          cachedArticles := cachedArticles + [ListedOf(k, item)];
        }
        assert entries.Keys - (todo - {k}) == (entries.Keys - todo) + {k};
        todo := todo - {k};
      }
      assert entries.Keys - todo == entries.Keys;
      var sorted := SortByCreationDesc(cachedArticles);
      total := |sorted|;
      page := Page(sorted, offset, limit);
      assert IsListing(entries, sorted);
      if Valid() {
        CompleteCacheListsAll(entries);
      }
    }
  }
}
