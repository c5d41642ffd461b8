/**
  The pure parts of three HTTP handlers: merging the artist and title search
  results into one list keyed by artwork id, cutting a list into pages, counting
  the pages, and checking the category named in a domain-statistics request.
  A Python dict keeps its keys in insertion order; it is modelled as a sequence
  of artworks whose ids are pairwise distinct.
 */
module Routes {
  import opened Wrappers
  import opened Entities
  import opened Sequences
  import opened ArtworkService
  import opened VisionEntities

  const DEFAULT_PAGE: int := 1
  const MAX_PAGE_SIZE: int := 100
  const MIN_SEARCH_QUERY_LENGTH: nat := 1
  const MAX_RECORDS_FOR_COUNT: nat := 10000
  const DEFAULT_SEARCH_LIMIT: nat := 50

  /** Some artwork in `d` has this id: `id in d` for the dict. */
  predicate HasId(d: seq<Artwork>, id: string) {
    exists k :: 0 <= k < |d| && d[k].id == id
  }

  predicate UniqueIds(d: seq<Artwork>) {
    forall i, j :: 0 <= i < j < |d| ==> d[i].id != d[j].id
  }

  /** `d[a.id] = a`: an existing key keeps its place and takes the new value; a new key goes last. */
  function Put(d: seq<Artwork>, a: Artwork): (r: seq<Artwork>)
    requires UniqueIds(d)
    ensures UniqueIds(r)
    ensures HasId(d, a.id) ==> |r| == |d|
    ensures !HasId(d, a.id) ==> r == d + [a]
    ensures forall k :: 0 <= k < |d| ==> r[k] == (if d[k].id == a.id then a else d[k])
  {
    if HasId(d, a.id) then seq(|d|, k requires 0 <= k < |d| => if d[k].id == a.id then a else d[k])
    else d + [a]
  }

  /** `{a.id: a for a in xs}`. */
  function DictOf(xs: seq<Artwork>): (r: seq<Artwork>)
    ensures UniqueIds(r)
  {
    if |xs| == 0 then [] else Put(DictOf(xs[..|xs| - 1]), xs[|xs| - 1])
  }

  /** The title loop: `if artwork.id not in all_results: all_results[artwork.id] = artwork`. */
  function AddMissing(d: seq<Artwork>, ts: seq<Artwork>): (r: seq<Artwork>)
    requires UniqueIds(d)
    ensures UniqueIds(r)
  {
    if |ts| == 0 then d
    else
      var front := AddMissing(d, ts[..|ts| - 1]);
      var t := ts[|ts| - 1];
      if HasId(front, t.id) then front else front + [t]
  }

  /** `list(all_results.values())` in `search_artworks`. */
  function MergeResults(artist: seq<Artwork>, title: seq<Artwork>): (r: seq<Artwork>)
    ensures UniqueIds(r)
  {
    AddMissing(DictOf(artist), title)
  }

  /** After `d[a.id] = a` the keys are the old keys and `a.id`. */
  lemma PutHasId(d: seq<Artwork>, a: Artwork, id: string)
    requires UniqueIds(d)
    ensures HasId(Put(d, a), id) <==> HasId(d, id) || id == a.id
  {
    var r := Put(d, a);
    if HasId(r, id) {
      var k :| 0 <= k < |r| && r[k].id == id;
      if k < |d| && d[k].id != a.id {
        assert d[k].id == id;
      }
    }
    if HasId(d, id) {
      var j :| 0 <= j < |d| && d[j].id == id;
      assert r[j].id == id;
    }
    if id == a.id {
      if HasId(d, a.id) {
        var j :| 0 <= j < |d| && d[j].id == a.id;
        assert r[j] == a;
      } else {
        assert r[|d|] == a;
      }
    }
  }

  /** Each value after `d[a.id] = a` is `a` or a value `d` already had. */
  lemma PutValues(d: seq<Artwork>, a: Artwork)
    requires UniqueIds(d)
    ensures forall k :: 0 <= k < |Put(d, a)| ==> Put(d, a)[k] == a || Put(d, a)[k] in d
  {
    var r := Put(d, a);
    forall k | 0 <= k < |r|
      ensures r[k] == a || r[k] in d
    {
      if k < |d| {
        assert r[k] == a || r[k] == d[k];
      }
    }
  }

  /** The dict built from a list has exactly the list's ids. */
  lemma {:induction false} DictOfIds(xs: seq<Artwork>)
    ensures forall id :: HasId(DictOf(xs), id) <==> HasId(xs, id)
  {
    if |xs| > 0 {
      var front := xs[..|xs| - 1];
      var a := xs[|xs| - 1];
      DictOfIds(front);
      forall id
        ensures HasId(DictOf(xs), id) <==> HasId(xs, id)
      {
        PutHasId(DictOf(front), a, id);
        if HasId(front, id) {
          var j :| 0 <= j < |front| && front[j].id == id;
          assert xs[j].id == id;
        }
        if HasId(xs, id) && id != a.id {
          var j :| 0 <= j < |xs| && xs[j].id == id;
          assert front[j].id == id;
        }
      }
    }
  }

  /** The dict built from a list holds only artworks of the list, and no more of them. */
  lemma {:induction false} DictOfValues(xs: seq<Artwork>)
    ensures |DictOf(xs)| <= |xs|
    ensures forall k :: 0 <= k < |DictOf(xs)| ==> DictOf(xs)[k] in xs
  {
    if |xs| > 0 {
      var front := xs[..|xs| - 1];
      DictOfValues(front);
      PutValues(DictOf(front), xs[|xs| - 1]);
      assert forall x :: x in front ==> x in xs;
    }
  }

  /** A list whose ids are already distinct is its own dict. */
  lemma {:induction false} DictOfDistinct(xs: seq<Artwork>)
    requires UniqueIds(xs)
    ensures DictOf(xs) == xs
  {
    if |xs| > 0 {
      var front := xs[..|xs| - 1];
      LastIdIsNew(xs);
      DictOfDistinct(front);
      assert front + [xs[|xs| - 1]] == xs;
    }
  }

  /** In a list of distinct ids the last id is new to the rest, which keep distinct ids. */
  lemma LastIdIsNew(xs: seq<Artwork>)
    requires UniqueIds(xs) && |xs| > 0
    ensures UniqueIds(xs[..|xs| - 1])
    ensures !HasId(xs[..|xs| - 1], xs[|xs| - 1].id)
  {
    var front := xs[..|xs| - 1];
    forall k | 0 <= k < |front| ensures front[k].id != xs[|xs| - 1].id {
      assert front[k] == xs[k];
    }
  }

  /** The title loop only appends: what was there stays in front, and at most `|ts|` artworks are added. */
  lemma {:induction false} AddMissingPrefix(d: seq<Artwork>, ts: seq<Artwork>)
    requires UniqueIds(d)
    ensures |d| <= |AddMissing(d, ts)| <= |d| + |ts|
    ensures AddMissing(d, ts)[..|d|] == d
  {
    if |ts| > 0 {
      var f := AddMissing(d, ts[..|ts| - 1]);
      AddMissingPrefix(d, ts[..|ts| - 1]);
      assert (f + [ts[|ts| - 1]])[..|d|] == f[..|d|];
    }
  }

  /** After the title loop every id of `ts` is present, and no other new one. */
  lemma {:induction false} AddMissingIds(d: seq<Artwork>, ts: seq<Artwork>)
    requires UniqueIds(d)
    ensures forall id :: HasId(AddMissing(d, ts), id) <==> HasId(d, id) || HasId(ts, id)
  {
    if |ts| > 0 {
      var front := ts[..|ts| - 1];
      var t := ts[|ts| - 1];
      AddMissingIds(d, front);
      var f := AddMissing(d, front);
      var r := AddMissing(d, ts);
      forall id
        ensures HasId(r, id) <==> HasId(d, id) || HasId(ts, id)
      {
        if HasId(front, id) {
          var j :| 0 <= j < |front| && front[j].id == id;
          assert ts[j].id == id;
        }
        if HasId(ts, id) && id != t.id {
          var j :| 0 <= j < |ts| && ts[j].id == id;
          assert front[j].id == id;
        }
        if !HasId(f, t.id) {
          if HasId(f, id) {
            var k :| 0 <= k < |f| && f[k].id == id;
            assert r[k] == f[k];
          }
          if HasId(r, id) && !HasId(f, id) {
            var k :| 0 <= k < |r| && r[k].id == id;
            assert k == |f|;
          }
          if id == t.id {
            assert r[|f|] == t;
          }
        }
      }
    }
  }

  /** Each appended artwork comes from `ts` and has an id `d` did not have. */
  lemma {:induction false} AddMissingNew(d: seq<Artwork>, ts: seq<Artwork>)
    requires UniqueIds(d)
    ensures |d| <= |AddMissing(d, ts)|
    ensures forall k :: |d| <= k < |AddMissing(d, ts)| ==>
              AddMissing(d, ts)[k] in ts && !HasId(d, AddMissing(d, ts)[k].id)
  {
    AddMissingPrefix(d, ts);
    if |ts| > 0 {
      var front := ts[..|ts| - 1];
      var t := ts[|ts| - 1];
      AddMissingNew(d, front);
      var f := AddMissing(d, front);
      var r := AddMissing(d, ts);
      AddMissingPrefix(d, front);
      assert forall x :: x in front ==> x in ts;
      if HasId(d, t.id) {
        var j :| 0 <= j < |d| && d[j].id == t.id;
        assert f[j] == d[j];
        assert HasId(f, t.id);
      }
      forall k | |d| <= k < |r|
        ensures r[k] in ts && !HasId(d, r[k].id)
      {
        if k < |f| {
          assert r[k] == f[k];
        }
      }
    }
  }

  /** The appended artworks keep the order they have in `ts`. */
  lemma {:induction false} AddMissingOrder(d: seq<Artwork>, ts: seq<Artwork>)
    requires UniqueIds(d)
    ensures |d| <= |AddMissing(d, ts)|
    ensures IsSubsequence(AddMissing(d, ts)[|d|..], ts)
  {
    AddMissingPrefix(d, ts);
    if |ts| > 0 {
      var front := ts[..|ts| - 1];
      var t := ts[|ts| - 1];
      AddMissingOrder(d, front);
      var f := AddMissing(d, front);
      var r := AddMissing(d, ts);
      AddMissingPrefix(d, front);
      assert front + [t] == ts;
      if HasId(f, t.id) {
        SubsequenceExtend(f[|d|..], front, [t]);
      } else {
        assert r[|d|..] == f[|d|..] + [t];
        SubsequenceAppend(f[|d|..], front, t);
      }
    }
  }

  /** Appending the same element to both sides keeps the subsequence relation. */
  lemma {:induction false} SubsequenceAppend(a: seq<Artwork>, b: seq<Artwork>, x: Artwork)
    requires IsSubsequence(a, b)
    ensures IsSubsequence(a + [x], b + [x])
    decreases |b|
  {
    if |a| == 0 {
      assert [] + [x] == [x];
      SuffixIsSubsequence(b, [x]);
    } else {
      assert (a + [x])[0] == a[0] && (a + [x])[1..] == a[1..] + [x];
      assert (b + [x])[0] == b[0] && (b + [x])[1..] == b[1..] + [x];
      if a[0] == b[0] {
        SubsequenceAppend(a[1..], b[1..], x);
      } else {
        SubsequenceAppend(a, b[1..], x);
      }
    }
  }

  lemma {:induction false} SuffixIsSubsequence(b: seq<Artwork>, c: seq<Artwork>)
    ensures IsSubsequence(c, b + c)
    decreases |b|
  {
    if |b| == 0 {
      assert b + c == c;
      SubsequenceRefl(c);
    } else {
      assert (b + c)[1..] == b[1..] + c;
      SuffixIsSubsequence(b[1..], c);
      SubsequenceOfTail(c, b + c);
    }
  }

  lemma {:induction false} SubsequenceRefl(c: seq<Artwork>)
    ensures IsSubsequence(c, c)
    decreases |c|
  {
    if |c| > 0 {
      SubsequenceRefl(c[1..]);
    }
  }

  /**
    `search_artworks` merging: ids are distinct, the artist matches come first in
    their own order (exactly the artist list when its ids are distinct), then the
    title matches whose id no artist match has, in title order; an id is present
    iff one of the two lists has it, and the length is at most the two lengths added.
   */
  lemma MergeFacts(artist: seq<Artwork>, title: seq<Artwork>)
    ensures var m := MergeResults(artist, title);
            var head := DictOf(artist);
            && UniqueIds(m)
            && |head| <= |m| <= |artist| + |title|
            && m[..|head|] == head
            && (UniqueIds(artist) ==> |artist| <= |m| && m[..|artist|] == artist)
            && (forall k :: 0 <= k < |head| ==> m[k] in artist)
            && (forall k :: |head| <= k < |m| ==> m[k] in title && !HasId(artist, m[k].id))
            && IsSubsequence(m[|head|..], title)
            && (forall id :: HasId(m, id) <==> HasId(artist, id) || HasId(title, id))
  {
    var head := DictOf(artist);
    var m := MergeResults(artist, title);
    DictOfIds(artist);
    DictOfValues(artist);
    if UniqueIds(artist) {
      DictOfDistinct(artist);
    }
    AddMissingPrefix(head, title);
    AddMissingIds(head, title);
    AddMissingNew(head, title);
    AddMissingOrder(head, title);
    forall k | 0 <= k < |head|
      ensures m[k] in artist
    {
      assert m[k] == m[..|head|][k];
    }
  }

  /** `items` are the elements of `xs` from index `offset` on, in order. */
  predicate Window<T(==)>(items: seq<T>, xs: seq<T>, offset: int) {
    forall i :: 0 <= i < |items| ==> 0 <= offset + i < |xs| && items[i] == xs[offset + i]
  }

  /** A page starting at `offset` of a list of `total` holds `pageSize` items, or what is left, or nothing. */
  predicate PageLength(n: nat, total: nat, offset: int, pageSize: int) {
    n == if offset >= total then 0 else if offset + pageSize <= total then pageSize else total - offset
  }

  /** `(page - 1) * page_size`. */
  function PageOffset(page: int, pageSize: int): int {
    (page - DEFAULT_PAGE) * pageSize
  }

  /**
    `xs[offset:offset + page_size]` (and `find_all(limit=page_size, offset=offset)`):
    the at most `pageSize` elements starting at the page's offset.
   */
  function PageOf<T(==)>(xs: seq<T>, page: int, pageSize: int): (r: seq<T>)
    requires page >= DEFAULT_PAGE && pageSize >= 1
    ensures |r| <= pageSize
    ensures r == [] <==> PageOffset(page, pageSize) >= |xs|
    ensures PageLength(|r|, |xs|, PageOffset(page, pageSize), pageSize)
    ensures Window(r, xs, PageOffset(page, pageSize))
  {
    var offset := PageOffset(page, pageSize);
    assert offset >= 0;
    if offset >= |xs| then []
    else if offset + pageSize >= |xs| then xs[offset..]
    else xs[offset..offset + pageSize]
  }

  /** Element `k` is on page `k / pageSize + 1`, at position `k % pageSize`. */
  lemma PageHoldsIndex<T>(xs: seq<T>, pageSize: int, k: int)
    requires pageSize >= 1 && 0 <= k < |xs|
    ensures var p := k / pageSize + DEFAULT_PAGE;
            k % pageSize < |PageOf(xs, p, pageSize)| && PageOf(xs, p, pageSize)[k % pageSize] == xs[k]
  {
    var p := k / pageSize + DEFAULT_PAGE;
    assert PageOffset(p, pageSize) == (k / pageSize) * pageSize;
    assert k == (k / pageSize) * pageSize + k % pageSize;
  }

  /** `(total + page_size - 1) // page_size`: the fewest pages of `pageSize` that hold `total` items. */
  function TotalPages(total: nat, pageSize: int): (r: nat)
    requires pageSize >= 1
    ensures PagesHold(r, total, pageSize)
    ensures r == 0 <==> total == 0
  {
    var n := total + pageSize - DEFAULT_PAGE;
    var q := n / pageSize;
    assert n == q * pageSize + n % pageSize;
    q
  }

  /** No smaller count of pages holds every item. */
  lemma TotalPagesLeast(total: nat, pageSize: int, n: nat)
    requires pageSize >= 1 && n * pageSize >= total
    ensures n >= TotalPages(total, pageSize)
  {
    var t := TotalPages(total, pageSize);
    if n < t {
      MulMonotone(n, t - 1, pageSize);
    }
  }

  lemma MulMonotone(a: int, b: int, c: int)
    requires a <= b && c >= 0
    ensures a * c <= b * c
  {
  }

  /** A page has items exactly when its number is at most the page count. */
  lemma PageNonEmptyIff<T>(xs: seq<T>, page: int, pageSize: int)
    requires page >= DEFAULT_PAGE && pageSize >= 1
    ensures PageOf(xs, page, pageSize) != [] <==> page <= TotalPages(|xs|, pageSize)
  {
    var t := TotalPages(|xs|, pageSize);
    if page <= t {
      MulMonotone(page - 1, t - 1, pageSize);
    } else {
      MulMonotone(t, page - 1, pageSize);
    }
  }

  /** `pages` pages of `pageSize` hold `total` items, and one page fewer would not. */
  predicate PagesHold(pages: nat, total: nat, pageSize: int) {
    pages * pageSize >= total && (pages == 0 || (pages - 1) * pageSize < total)
  }

  /** `ArtworkListSchema`. */
  datatype ArtworkList = ArtworkList(items: seq<Artwork>, total: nat, page: int, pageSize: int, totalPages: nat)

  /**
    `search_artworks`: up to 50 artist matches and 50 title matches, merged by id,
    paginated. The request validation of the framework supplies the preconditions.
   */
  function SearchArtworks(store: seq<Artwork>, q: string, page: int, pageSize: int): (r: ArtworkList)
    requires |q| >= MIN_SEARCH_QUERY_LENGTH && page >= DEFAULT_PAGE && 1 <= pageSize <= MAX_PAGE_SIZE
    ensures UniqueIds(r.items)
    ensures |r.items| <= pageSize
    ensures r.total <= 2 * DEFAULT_SEARCH_LIMIT
    ensures forall k :: 0 <= k < |r.items| ==>
              (r.items[k].artist.Some? && MatchesTerm(r.items[k].artist.value.name, q)) || MatchesTerm(r.items[k].title, q)
    ensures PagesHold(r.totalPages, r.total, pageSize)
    ensures r.page == page && r.pageSize == pageSize
    ensures var merged := MergeResults(SearchByArtist(store, q, DEFAULT_SEARCH_LIMIT), SearchByTitle(store, q, DEFAULT_SEARCH_LIMIT));
            r.total == |merged| && r.items == PageOf(merged, page, pageSize)
  {
    MergedPage(SearchByArtist(store, q, DEFAULT_SEARCH_LIMIT), SearchByTitle(store, q, DEFAULT_SEARCH_LIMIT), q, page, pageSize)
  }

  /** One page of the artist matches followed by the new title matches. */
  function MergedPage(byArtist: seq<Artwork>, byTitle: seq<Artwork>, q: string, page: int, pageSize: int): (r: ArtworkList)
    requires page >= DEFAULT_PAGE && pageSize >= 1
    requires forall k :: 0 <= k < |byArtist| ==> byArtist[k].artist.Some? && MatchesTerm(byArtist[k].artist.value.name, q)
    requires forall k :: 0 <= k < |byTitle| ==> MatchesTerm(byTitle[k].title, q)
    ensures UniqueIds(r.items)
    ensures |r.items| <= pageSize
    ensures r.total <= |byArtist| + |byTitle|
    ensures forall k :: 0 <= k < |r.items| ==>
              (r.items[k].artist.Some? && MatchesTerm(r.items[k].artist.value.name, q)) || MatchesTerm(r.items[k].title, q)
    ensures PagesHold(r.totalPages, r.total, pageSize)
    ensures r.page == page && r.pageSize == pageSize
    ensures r.total == |MergeResults(byArtist, byTitle)|
    ensures r.items == PageOf(MergeResults(byArtist, byTitle), page, pageSize)
  {
    var merged := MergeResults(byArtist, byTitle);
    MergedPageFacts(byArtist, byTitle, q, page, pageSize);
    ArtworkList(PageOf(merged, page, pageSize), |merged|, page, pageSize, TotalPages(|merged|, pageSize))
  }

  /** A page holds only elements of the list. */
  lemma PageOfMembers(xs: seq<Artwork>, page: int, pageSize: int)
    requires page >= DEFAULT_PAGE && pageSize >= 1
    ensures forall i :: 0 <= i < |PageOf(xs, page, pageSize)| ==> PageOf(xs, page, pageSize)[i] in xs
  {
    var items := PageOf(xs, page, pageSize);
    var offset := PageOffset(page, pageSize);
    forall i | 0 <= i < |items|
      ensures items[i] in xs
    {
      assert items[i] == xs[offset + i];
    }
  }

  /** A page of a list with distinct ids has distinct ids. */
  lemma PageOfUnique(xs: seq<Artwork>, page: int, pageSize: int)
    requires page >= DEFAULT_PAGE && pageSize >= 1
    requires UniqueIds(xs)
    ensures UniqueIds(PageOf(xs, page, pageSize))
  {
    WindowUnique(xs, PageOf(xs, page, pageSize), PageOffset(page, pageSize));
  }

  /** Consecutive elements of a list with distinct ids have distinct ids. */
  lemma WindowUnique(xs: seq<Artwork>, items: seq<Artwork>, offset: int)
    requires UniqueIds(xs)
    requires Window(items, xs, offset)
    ensures UniqueIds(items)
  {
    forall i, j | 0 <= i < j < |items|
      ensures items[i].id != items[j].id
    {
      var a, b := items[i], items[j];
      assert a == xs[offset + i] && b == xs[offset + j];
    }
  }

  /** Every merged search result matches the query by artist or by title. */
  lemma MergedMatch(byArtist: seq<Artwork>, byTitle: seq<Artwork>, q: string)
    requires forall k :: 0 <= k < |byArtist| ==> byArtist[k].artist.Some? && MatchesTerm(byArtist[k].artist.value.name, q)
    requires forall k :: 0 <= k < |byTitle| ==> MatchesTerm(byTitle[k].title, q)
    ensures forall a :: a in MergeResults(byArtist, byTitle) ==>
              (a.artist.Some? && MatchesTerm(a.artist.value.name, q)) || MatchesTerm(a.title, q)
  {
    var merged := MergeResults(byArtist, byTitle);
    MergeFacts(byArtist, byTitle);
    forall a | a in merged
      ensures (a.artist.Some? && MatchesTerm(a.artist.value.name, q)) || MatchesTerm(a.title, q)
    {
      var k :| 0 <= k < |merged| && merged[k] == a;
      if k < |DictOf(byArtist)| {
        assert a in byArtist;
      } else {
        assert a in byTitle;
      }
    }
  }

  /** A page of the merged search results: distinct ids, and each item matches by artist or by title. */
  lemma MergedPageFacts(byArtist: seq<Artwork>, byTitle: seq<Artwork>, q: string, page: int, pageSize: int)
    requires page >= DEFAULT_PAGE && pageSize >= 1
    requires forall k :: 0 <= k < |byArtist| ==> byArtist[k].artist.Some? && MatchesTerm(byArtist[k].artist.value.name, q)
    requires forall k :: 0 <= k < |byTitle| ==> MatchesTerm(byTitle[k].title, q)
    ensures |MergeResults(byArtist, byTitle)| <= |byArtist| + |byTitle|
    ensures var items := PageOf(MergeResults(byArtist, byTitle), page, pageSize);
            && UniqueIds(items)
            && forall i :: 0 <= i < |items| ==>
                 (items[i].artist.Some? && MatchesTerm(items[i].artist.value.name, q)) || MatchesTerm(items[i].title, q)
  {
    var merged := MergeResults(byArtist, byTitle);
    MergeFacts(byArtist, byTitle);
    PageOfMembers(merged, page, pageSize);
    PageOfUnique(merged, page, pageSize);
    MergedMatch(byArtist, byTitle, q);
  }

  /**
    `list_artworks`: one page of the store and the page count. With the SQLite
    repository the total is a `COUNT(*)`; otherwise it is the length of a listing
    capped at 10000 rows.
   */
  function ListArtworks(store: seq<Artwork>, page: int, pageSize: int, countsRows: bool): (r: ArtworkList)
    requires page >= DEFAULT_PAGE && 1 <= pageSize <= MAX_PAGE_SIZE
    ensures |r.items| <= pageSize
    ensures r.items == PageOf(store, page, pageSize)
    ensures Window(r.items, store, PageOffset(page, pageSize))
    ensures PagesHold(r.totalPages, r.total, pageSize)
    ensures r.total <= |store|
    ensures countsRows ==> r.total == |store|
    ensures !countsRows ==> r.total == if |store| < MAX_RECORDS_FOR_COUNT then |store| else MAX_RECORDS_FOR_COUNT
    ensures countsRows ==> (r.items != [] <==> page <= r.totalPages)
  {
    var items := PageOf(store, page, pageSize);
    var total := ListingTotal(store, countsRows);
    PageNonEmptyIff(store, page, pageSize);
    ArtworkList(items, total, page, pageSize, TotalPages(total, pageSize))
  }

  /** The total `list_artworks` reports: the row count, or the length of a listing capped at 10000 rows. */
  function ListingTotal(store: seq<Artwork>, countsRows: bool): (t: nat)
    ensures t <= |store|
    ensures countsRows ==> t == |store|
    ensures !countsRows ==> t == if |store| < MAX_RECORDS_FOR_COUNT then |store| else MAX_RECORDS_FOR_COUNT
  {
    if countsRows then |store| else |FindAll(store, MAX_RECORDS_FOR_COUNT)|
  }

  /** The categories `get_domains_by_category` accepts, in the order its error message lists them. */
  const VALID_CATEGORIES: seq<string> := ["auction", "marketplace", "museum", "social", "academic", "other"]

  const STATUS_BAD_REQUEST: int := 400
  const STATUS_INTERNAL_SERVER_ERROR: int := 500
  const INVALID_CATEGORY_DETAIL: string :=
    "Invalid category. Must be one of: auction, marketplace, museum, social, academic, other"

  /** The outcome of the category check: the category to look up, or the HTTP error returned. */
  datatype CategoryCheck = Accepted(category: Category) | Rejected(status: int, detail: string)

  /** The category whose stored name is `name`, if any. */
  function CategoryNamed(name: string): (r: Option<Category>)
    ensures r.Some? ==> r.value.Name() == name
    ensures r.None? ==> forall c: Category :: c.Name() != name
  {
    if name == "auction" then Some(Auction)
    else if name == "marketplace" then Some(Marketplace)
    else if name == "museum" then Some(Museum)
    else if name == "social" then Some(Social)
    else if name == "academic" then Some(Academic)
    else if name == "other" then Some(Other)
    else None
  }

  /**
    The category check as the handler is written, taking `HttpConstants` to be
    the class in src/constants.py: that class defines no `STATUS_BAD_REQUEST`,
    so building the 400 response raises `AttributeError` and the client
    receives a 500. (That file as it stands also lacks `get_database_url`, which
    the routes import, so the routes may run against another version of it.)
   */
  function CheckCategoryAsWritten(name: string): (r: CategoryCheck)
    ensures r.Accepted? <==> name in VALID_CATEGORIES
    ensures r.Accepted? ==> r.category.Name() == name
    ensures r.Rejected? ==> r.status == STATUS_INTERNAL_SERVER_ERROR
  {
    match CategoryNamed(name)
    case Some(c) => Accepted(c)
    case None => Rejected(STATUS_INTERNAL_SERVER_ERROR, "Internal Server Error")
  }

  /** The category check as intended: an unknown category is a 400 naming the valid ones. */
  function CheckCategory(name: string): (r: CategoryCheck)
    ensures r.Accepted? <==> name in VALID_CATEGORIES
    ensures r.Accepted? ==> r.category.Name() == name
    ensures r.Rejected? ==> r.status == STATUS_BAD_REQUEST && r.detail == INVALID_CATEGORY_DETAIL
  {
    match CategoryNamed(name)
    case Some(c) => Accepted(c)
    case None => Rejected(STATUS_BAD_REQUEST, INVALID_CATEGORY_DETAIL)
  }

  /** Every category's stored name passes the check and yields that category back. */
  lemma CheckCategoryRoundTrip(c: Category)
    ensures CheckCategory(c.Name()) == Accepted(c)
    ensures CheckCategoryAsWritten(c.Name()) == Accepted(c)
  {
  }

  /** An unknown category such as "gallery" gets a 500 from the handler as written, not the intended 400. */
  lemma UnknownCategoryIsServerError(name: string)
    requires name == "gallery"
    ensures CheckCategoryAsWritten(name).status == STATUS_INTERNAL_SERVER_ERROR
    ensures CheckCategory(name).status == STATUS_BAD_REQUEST
  {
    assert name !in VALID_CATEGORIES;
  }
}
