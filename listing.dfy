/**
 * The ordering and pagination of the cached-article listing
 * (`get_cached_articles`): newest creation date first, then the slice
 * `[offset, offset + limit)`.
 */
module Listing {
  import opened Articles

  /** One listed cache entry: its key, cache time, creation date and article. */
  datatype Listed = Listed(key: string, cachedAt: nat, creation: nat, article: Article)

  /** Most recent creation date first. */
  predicate SortedDesc(s: seq<Listed>) {
    forall i, j :: 0 <= i < j < |s| ==> s[i].creation >= s[j].creation
  }

  /** Inserts `x` before the first item that is not more recent than it. */
  function Insert(x: Listed, s: seq<Listed>): seq<Listed> {
    if s == [] || x.creation >= s[0].creation then [x] + s
    else [s[0]] + Insert(x, s[1..])
  }

  lemma ConsSorted(a: Listed, t: seq<Listed>)
    requires SortedDesc(t)
    requires forall y :: y in t ==> a.creation >= y.creation
    ensures SortedDesc([a] + t)
  {
    forall i, j | 0 <= i < j < |t| + 1 ensures ([a] + t)[i].creation >= ([a] + t)[j].creation {
      if i > 0 {
        assert ([a] + t)[i] == t[i - 1];
      }
      assert ([a] + t)[j] == t[j - 1];
    }
  }

  lemma {:induction false} InsertKeepsOrder(x: Listed, s: seq<Listed>)
    requires SortedDesc(s)
    ensures SortedDesc(Insert(x, s))
    ensures multiset(Insert(x, s)) == multiset(s) + multiset{x}
  {
    if s == [] || x.creation >= s[0].creation {
      ConsSorted(x, s);
    } else {
      var t := Insert(x, s[1..]);
      InsertKeepsOrder(x, s[1..]);
      assert s == [s[0]] + s[1..];
      forall y | y in t ensures s[0].creation >= y.creation {
        assert y in multiset(t);
        if y != x {
          assert y in multiset(s[1..]);
          var k :| 0 <= k < |s[1..]| && s[1..][k] == y;
          assert s[k + 1] == y;
        }
      }
      ConsSorted(s[0], t);
    }
  }

  /** The listing sorted by creation date, most recent first. */
  function SortByCreationDesc(s: seq<Listed>): (r: seq<Listed>)
    ensures SortedDesc(r)
    ensures multiset(r) == multiset(s)
  {
    if s == [] then []
    else
      assert s == [s[0]] + s[1..];
      InsertKeepsOrder(s[0], SortByCreationDesc(s[1..]));
      Insert(s[0], SortByCreationDesc(s[1..]))
  }

  function Min(a: int, b: int): int {
    if a <= b then a else b
  }

  /**
   * Python's `s[offset:offset + limit]` for a non-negative offset: at most
   * `limit` items, none when `offset` is past the end, otherwise the next
   * `min(limit, |s| - offset)` items from `offset` on, in order.
   */
  function Page<T>(s: seq<T>, offset: nat, limit: nat): (r: seq<T>)
    ensures |r| <= limit
    ensures offset >= |s| ==> r == []
    ensures offset < |s| ==> |r| == Min(limit, |s| - offset)
    ensures forall i :: 0 <= i < |r| ==> offset + i < |s| && r[i] == s[offset + i]
  {
    if offset >= |s| then [] else s[offset..Min(offset + limit, |s|)]
  }

  /** Two consecutive pages together are the page of their combined size. */
  lemma PagesConcatenate<T>(s: seq<T>, offset: nat, a: nat, b: nat)
    ensures Page(s, offset, a) + Page(s, offset + a, b) == Page(s, offset, a + b)
  {
    if offset < |s| && offset + a < |s| {
      assert s[offset..offset + a] + s[offset + a..Min(offset + a + b, |s|)] == s[offset..Min(offset + a + b, |s|)];
    }
  }

  /**
   * Paging through a sorted listing never goes back in time: every item of
   * an earlier page is at least as recent as every item of a later one.
   */
  lemma EarlierPagesAreNewer(s: seq<Listed>, o1: nat, l1: nat, o2: nat, l2: nat)
    requires SortedDesc(s)
    requires o1 + l1 <= o2
    ensures forall x, y :: x in Page(s, o1, l1) && y in Page(s, o2, l2) ==> x.creation >= y.creation
  {
    forall x, y | x in Page(s, o1, l1) && y in Page(s, o2, l2) ensures x.creation >= y.creation {
      var i :| 0 <= i < |Page(s, o1, l1)| && Page(s, o1, l1)[i] == x;
      var j :| 0 <= j < |Page(s, o2, l2)| && Page(s, o2, l2)[j] == y;
      assert o1 + i < o2 + j;
    }
  }
}
