/**
  Searching the stored artworks by artist or title: a case-insensitive substring
  test over the first `2 * limit` stored rows, keeping at most `limit` hits in
  storage order. The store is the artwork table in the order a scan returns it.
 */
module ArtworkService {
  import opened Wrappers
  import opened Text
  import opened Entities
  import opened Sequences

  /** `find_all(limit, offset=0)`: the first `limit` rows; SQLite reads a negative LIMIT as no limit. */
  function FindAll(store: seq<Artwork>, limit: int): (r: seq<Artwork>)
    ensures |r| <= |store| && r == store[..|r|]
    ensures limit >= 0 ==> |r| == if limit < |store| then limit else |store|
    ensures limit < 0 ==> r == store
  {
    if 0 <= limit < |store| then store[..limit] else store
  }

  /** `_matches_artist` and `_matches_title`: the lower-cased term occurs in the lower-cased text. */
  predicate MatchesTerm(text: string, term: string) {
    Contains(Lower(text), Lower(term))
  }

  /** The artwork has an artist (an `Artist` record is always truthy) whose name matches. */
  function ArtistHit(term: string): Artwork -> bool {
    (a: Artwork) => a.artist.Some? && MatchesTerm(a.artist.value.name, term)
  }

  function TitleHit(term: string): Artwork -> bool {
    (a: Artwork) => MatchesTerm(a.title, term)
  }

  /** The shared shape of both searches: scan `2 * limit` rows, keep the hits, cut to `limit`. */
  function SearchBy(store: seq<Artwork>, hit: Artwork -> bool, limit: int): seq<Artwork> {
    SliceTo(Filter(FindAll(store, limit * 2), hit), limit)
  }

  function SearchByArtist(store: seq<Artwork>, artistName: string, limit: int): (r: seq<Artwork>)
    ensures forall k :: 0 <= k < |r| ==> r[k].artist.Some? && MatchesTerm(r[k].artist.value.name, artistName)
    ensures limit >= 0 ==> |r| <= limit
    ensures limit >= 0 ==> var hits := Filter(FindAll(store, limit * 2), ArtistHit(artistName));
                           |r| == (if limit < |hits| then limit else |hits|) && r == hits[..|r|]
  {
    var r := SearchBy(store, ArtistHit(artistName), limit);
    SearchByFacts(store, ArtistHit(artistName), limit);
    r
  }

  function SearchByTitle(store: seq<Artwork>, title: string, limit: int): (r: seq<Artwork>)
    ensures forall k :: 0 <= k < |r| ==> MatchesTerm(r[k].title, title)
    ensures limit >= 0 ==> |r| <= limit
    ensures limit >= 0 ==> var hits := Filter(FindAll(store, limit * 2), TitleHit(title));
                           |r| == (if limit < |hits| then limit else |hits|) && r == hits[..|r|]
  {
    var r := SearchBy(store, TitleHit(title), limit);
    SearchByFacts(store, TitleHit(title), limit);
    r
  }

  /**
    Every result is a hit; the results keep storage order and come from the first
    `2 * limit` rows; they are the first `limit` hits of those rows, all of them
    when there are no more.
   */
  lemma SearchByFacts(store: seq<Artwork>, hit: Artwork -> bool, limit: int)
    ensures var r := SearchBy(store, hit, limit);
            && (forall k :: 0 <= k < |r| ==> hit(r[k]))
            && IsSubsequence(r, FindAll(store, limit * 2))
            && IsSubsequence(r, store)
            && (limit >= 0 ==> |r| <= limit)
            && (limit >= 0 ==> var hits := Filter(FindAll(store, limit * 2), hit);
                  |r| == (if limit < |hits| then limit else |hits|) && r == hits[..|r|])
            && (limit >= 0 && |Filter(FindAll(store, limit * 2), hit)| <= limit ==>
                  forall k :: 0 <= k < |store| && k < 2 * limit && hit(store[k]) ==> store[k] in r)
  {
    var scanned := FindAll(store, limit * 2);
    var hits := Filter(scanned, hit);
    var r := SliceTo(hits, limit);
    FilterIsSubsequence(scanned, hit);
    PrefixSubsequence(hits, scanned, |r|);
    assert store == scanned + store[|scanned|..];
    SubsequenceExtend(r, scanned, store[|scanned|..]);
    if limit >= 0 && |hits| <= limit {
      assert r == hits;
      forall k | 0 <= k < |store| && k < 2 * limit && hit(store[k])
        ensures store[k] in r
      {
        assert store[k] == scanned[k];
      }
    }
  }

  /**
    A scanned row that matches is returned when fewer than `limit` matching rows
    come before it: the results are the earliest matches.
   */
  lemma SearchReturnsEarlyHits(store: seq<Artwork>, hit: Artwork -> bool, limit: nat, k: nat)
    requires k < |store| && k < 2 * limit && hit(store[k])
    requires |Filter(store[..k], hit)| < limit
    ensures store[k] in SearchBy(store, hit, limit)
  {
    var scanned := FindAll(store, limit * 2);
    assert scanned[..k] == store[..k];
    SplitAt(scanned, k);
    FilterHitAt(scanned[..k], scanned[k], scanned[k + 1..], hit);
  }

  /** `s` taken apart around position `k`. */
  lemma SplitAt<T>(s: seq<T>, k: nat)
    requires k < |s|
    ensures s == s[..k] + ([s[k]] + s[k + 1..])
  {
  }

  /** A hit `y` after the prefix `a` lands at the position just past `a`'s own hits. */
  lemma FilterHitAt<T>(a: seq<T>, y: T, b: seq<T>, hit: T -> bool)
    requires hit(y)
    ensures |Filter(a + ([y] + b), hit)| > |Filter(a, hit)|
    ensures Filter(a + ([y] + b), hit)[|Filter(a, hit)|] == y
  {
    FilterConcat(a, [y] + b, hit);
    FilterConcat([y], b, hit);
    assert Filter([y], hit) == [y];
  }

  /** Neither search examines a row past the first `2 * limit`: changing later rows changes nothing. */
  lemma SearchIgnoresLaterRows(store: seq<Artwork>, later: seq<Artwork>, hit: Artwork -> bool, limit: nat)
    requires |store| >= 2 * limit
    ensures SearchBy(store + later, hit, limit) == SearchBy(store, hit, limit)
  {
    assert (store + later)[..limit * 2] == store[..limit * 2];
  }
}
