/**
  The similarity service: linear scans over the feature store that rank other
  artworks by perceptual-hash distance, by embedding similarity, or by both, and
  the anchor-based duplicate grouping.

  The feature store is the sequence `find_all` pages through; the embedding
  similarity (`cosine_similarity`) and the artwork repository's
  `find_by_id(...) is not None` are parameters, since they are numeric code and a
  database lookup outside this model.
 */
module SimilarityService {
  import opened Wrappers
  import opened Hamming
  import opened StableSort
  import opened Sequences

  type ArtworkId = string

  /** A CLIP embedding; the empty sequence stands for a missing (or empty) embedding. */
  type Embedding = seq<real>

  /** `find_all(limit=1000)`: only this many feature records are ever scanned. */
  const FEATURE_SCAN_LIMIT: nat := 1000

  /** The number of bits of a hash, used to normalise a distance into a score. */
  const HASH_BITS: real := 64.0

  datatype FeatureRecord = FeatureRecord(artworkId: ArtworkId, phash: Hash, embedding: Embedding)

  datatype Method = PerceptualHash | ClipEmbedding

  datatype HashMatch = HashMatch(artworkId: ArtworkId, distance: nat, score: real)

  datatype ClipMatch = ClipMatch(artworkId: ArtworkId, score: real)

  predicate DistinctRecordIds(store: seq<FeatureRecord>) {
    forall i, j :: 0 <= i < j < |store| ==> store[i].artworkId != store[j].artworkId
  }

  /** `feature_repo.find_by_artwork_id`: the first record stored for the artwork. */
  function FindFeatures(store: seq<FeatureRecord>, id: ArtworkId): (r: Option<FeatureRecord>)
    ensures r.Some? ==> r.value in store && r.value.artworkId == id
    ensures r.None? ==> forall k :: 0 <= k < |store| ==> store[k].artworkId != id
  {
    if |store| == 0 then None
    else if store[0].artworkId == id then Some(store[0])
    else FindFeatures(store[1..], id)
  }

  function Scanned(store: seq<FeatureRecord>): seq<FeatureRecord> {
    SliceTo(store, FEATURE_SCAN_LIMIT)
  }

  // ---------------------------------------------------------------------------
  // Hash search
  // ---------------------------------------------------------------------------

  /** `1 - distance / 64`. */
  function HashScore(distance: nat): real {
    1.0 - distance as real / HASH_BITS
  }

  /** A scanned record that `find_similar_by_hash` keeps for the source hash. */
  predicate HashHit(source: Hash, f: FeatureRecord, id: ArtworkId, threshold: int, known: ArtworkId -> bool) {
    f.artworkId != id && |f.phash| > 0 && Distance(source, f.phash) <= threshold && known(f.artworkId)
  }

  function ToHashMatch(source: Hash, f: FeatureRecord): HashMatch {
    var d := Distance(source, f.phash);
    HashMatch(f.artworkId, d, HashScore(d))
  }

  /** `m` is the match some scanned hit produces. */
  predicate FromHashHit(m: HashMatch, source: Hash, records: seq<FeatureRecord>, id: ArtworkId, threshold: int,
                        known: ArtworkId -> bool) {
    exists j :: 0 <= j < |records| && HashHit(source, records[j], id, threshold, known)
                && m == ToHashMatch(source, records[j])
  }

  /** The scan loop of `find_similar_by_hash`: the hits, in store order. */
  function HashCandidates(source: Hash, records: seq<FeatureRecord>, id: ArtworkId, threshold: int,
                          known: ArtworkId -> bool): (r: seq<HashMatch>)
    ensures |r| <= |records|
    ensures forall k :: 0 <= k < |r| ==> FromHashHit(r[k], source, records, id, threshold, known)
  {
    if |records| == 0 then []
    else
      var rest := HashCandidates(source, records[1..], id, threshold, known);
      assert forall j :: 0 <= j < |records| - 1 ==> records[1..][j] == records[j + 1];
      assert forall m :: FromHashHit(m, source, records[1..], id, threshold, known)
                         ==> FromHashHit(m, source, records, id, threshold, known);
      if HashHit(source, records[0], id, threshold, known)
      then [ToHashMatch(source, records[0])] + rest
      else rest
  }

  /** What every hash result satisfies: another, existing artwork within the threshold, scored by its distance. */
  predicate ValidHashResult(m: HashMatch, id: ArtworkId, threshold: int, known: ArtworkId -> bool) {
    m.artworkId != id && m.distance <= threshold && m.score == HashScore(m.distance) && known(m.artworkId)
  }

  function HashRank(m: HashMatch): real {
    m.distance as real
  }

  /** The hits for the source's hash, stably sorted by distance, before truncation. */
  function HashRanking(store: seq<FeatureRecord>, id: ArtworkId, threshold: int, known: ArtworkId -> bool): seq<HashMatch> {
    match FindFeatures(store, id)
    case None => []
    case Some(source) =>
      if |source.phash| == 0 then []
      else SortBy(HashCandidates(source.phash, Scanned(store), id, threshold, known), HashRank)
  }

  /** `find_similar_by_hash`. */
  function FindSimilarByHash(store: seq<FeatureRecord>, id: ArtworkId, threshold: int, limit: nat,
                             known: ArtworkId -> bool): (r: seq<HashMatch>)
    ensures |r| <= limit
    ensures FindFeatures(store, id).None? || |FindFeatures(store, id).value.phash| == 0 ==> r == []
    ensures forall k :: 0 <= k < |r| ==> ValidHashResult(r[k], id, threshold, known)
    ensures Sorted(r, HashRank)
    ensures var n := |HashRanking(store, id, threshold, known)|; |r| == if limit < n then limit else n
    ensures r == HashRanking(store, id, threshold, known)[..|r|]
  {
    var ranking := HashRanking(store, id, threshold, known);
    HashRankingFacts(store, id, threshold, known);
    SliceToSorted(ranking, limit, HashRank);
    SliceTo(ranking, limit)
  }

  lemma HashRankingFacts(store: seq<FeatureRecord>, id: ArtworkId, threshold: int, known: ArtworkId -> bool)
    ensures Sorted(HashRanking(store, id, threshold, known), HashRank)
    ensures forall m :: m in HashRanking(store, id, threshold, known) ==> ValidHashResult(m, id, threshold, known)
  {
    match FindFeatures(store, id)
    case None =>
    case Some(source) =>
      if |source.phash| > 0 {
        var cands := HashCandidates(source.phash, Scanned(store), id, threshold, known);
        var sorted := SortBy(cands, HashRank);
        forall m | m in sorted
          ensures ValidHashResult(m, id, threshold, known)
        {
          assert m in multiset(cands);
          var k :| 0 <= k < |cands| && cands[k] == m;
        }
      }
  }

  /** Every scanned hit is ranked, and a hit cut off by the limit is no closer than any result. */
  lemma HashSearchComplete(store: seq<FeatureRecord>, id: ArtworkId, threshold: int, limit: nat,
                           known: ArtworkId -> bool, j: nat)
    requires FindFeatures(store, id).Some? && |FindFeatures(store, id).value.phash| > 0
    requires j < |Scanned(store)|
    requires HashHit(FindFeatures(store, id).value.phash, Scanned(store)[j], id, threshold, known)
    ensures ToHashMatch(FindFeatures(store, id).value.phash, Scanned(store)[j]) in HashRanking(store, id, threshold, known)
    ensures var m := ToHashMatch(FindFeatures(store, id).value.phash, Scanned(store)[j]);
            var r := FindSimilarByHash(store, id, threshold, limit, known);
            m !in r ==> forall k :: 0 <= k < |r| ==> r[k].distance <= m.distance
  {
    var source := FindFeatures(store, id).value.phash;
    var recs := Scanned(store);
    var m := ToHashMatch(source, recs[j]);
    var cands := HashCandidates(source, recs, id, threshold, known);
    HitIsCandidate(source, recs, id, threshold, known, j);
    var ranking := HashRanking(store, id, threshold, known);
    assert m in multiset(ranking);
    var r := FindSimilarByHash(store, id, threshold, limit, known);
    if m !in r {
      var p :| 0 <= p < |ranking| && ranking[p] == m;
      assert p >= |r|;
      forall k | 0 <= k < |r| ensures r[k].distance <= m.distance {
        assert r[k] == ranking[k];
      }
    }
  }

  lemma {:induction false} HitIsCandidate(source: Hash, records: seq<FeatureRecord>, id: ArtworkId, threshold: int,
                                          known: ArtworkId -> bool, j: nat)
    requires j < |records| && HashHit(source, records[j], id, threshold, known)
    ensures ToHashMatch(source, records[j]) in HashCandidates(source, records, id, threshold, known)
  {
    if j > 0 {
      assert records[1..][j - 1] == records[j];
      HitIsCandidate(source, records[1..], id, threshold, known, j - 1);
    }
  }

  /** Ties in distance keep store order: each distance class of the ranking is that class of the scan. */
  lemma HashSearchStable(store: seq<FeatureRecord>, id: ArtworkId, threshold: int, known: ArtworkId -> bool, v: real)
    requires FindFeatures(store, id).Some? && |FindFeatures(store, id).value.phash| > 0
    ensures WithRank(HashRanking(store, id, threshold, known), HashRank, v)
         == WithRank(HashCandidates(FindFeatures(store, id).value.phash, Scanned(store), id, threshold, known), HashRank, v)
  {
    SortByStable(HashCandidates(FindFeatures(store, id).value.phash, Scanned(store), id, threshold, known), HashRank, v);
  }

  /** With a threshold of at most 64 bits every hash score is a proper similarity in [0, 1]. */
  lemma HashScoresNormalised(store: seq<FeatureRecord>, id: ArtworkId, threshold: int, limit: nat,
                             known: ArtworkId -> bool)
    requires threshold <= 64
    ensures forall m :: m in FindSimilarByHash(store, id, threshold, limit, known) ==> 0.0 <= m.score <= 1.0
  {
  }

  // ---------------------------------------------------------------------------
  // Embedding search
  // ---------------------------------------------------------------------------

  /** A scanned record that `find_similar_by_clip` keeps for the source embedding. */
  predicate ClipHit(source: Embedding, f: FeatureRecord, id: ArtworkId, threshold: real,
                    cosine: (Embedding, Embedding) -> real, known: ArtworkId -> bool) {
    f.artworkId != id && |f.embedding| > 0 && cosine(source, f.embedding) >= threshold && known(f.artworkId)
  }

  function ToClipMatch(source: Embedding, f: FeatureRecord, cosine: (Embedding, Embedding) -> real): ClipMatch {
    ClipMatch(f.artworkId, cosine(source, f.embedding))
  }

  /** `m` is the match some scanned hit produces. */
  predicate FromClipHit(m: ClipMatch, source: Embedding, records: seq<FeatureRecord>, id: ArtworkId, threshold: real,
                        cosine: (Embedding, Embedding) -> real, known: ArtworkId -> bool) {
    exists j :: 0 <= j < |records| && ClipHit(source, records[j], id, threshold, cosine, known)
                && m == ToClipMatch(source, records[j], cosine)
  }

  /** The scan loop of `find_similar_by_clip`: the hits, in store order. */
  function ClipCandidates(source: Embedding, records: seq<FeatureRecord>, id: ArtworkId, threshold: real,
                          cosine: (Embedding, Embedding) -> real, known: ArtworkId -> bool): (r: seq<ClipMatch>)
    ensures |r| <= |records|
    ensures forall k :: 0 <= k < |r| ==> FromClipHit(r[k], source, records, id, threshold, cosine, known)
  {
    if |records| == 0 then []
    else
      var rest := ClipCandidates(source, records[1..], id, threshold, cosine, known);
      assert forall j :: 0 <= j < |records| - 1 ==> records[1..][j] == records[j + 1];
      assert forall m :: FromClipHit(m, source, records[1..], id, threshold, cosine, known)
                         ==> FromClipHit(m, source, records, id, threshold, cosine, known);
      if ClipHit(source, records[0], id, threshold, cosine, known)
      then [ToClipMatch(source, records[0], cosine)] + rest
      else rest
  }

  /** Descending by similarity. */
  function ClipRank(m: ClipMatch): real {
    -m.score
  }

  function ClipRanking(store: seq<FeatureRecord>, id: ArtworkId, threshold: real,
                       cosine: (Embedding, Embedding) -> real, known: ArtworkId -> bool): seq<ClipMatch> {
    match FindFeatures(store, id)
    case None => []
    case Some(source) =>
      if |source.embedding| == 0 then []
      else SortBy(ClipCandidates(source.embedding, Scanned(store), id, threshold, cosine, known), ClipRank)
  }

  /** `find_similar_by_clip`; the similarity is used as the oracle returns it, without clamping. */
  function FindSimilarByClip(store: seq<FeatureRecord>, id: ArtworkId, threshold: real, limit: nat,
                             cosine: (Embedding, Embedding) -> real, known: ArtworkId -> bool): (r: seq<ClipMatch>)
    ensures |r| <= limit
    ensures FindFeatures(store, id).None? || |FindFeatures(store, id).value.embedding| == 0 ==> r == []
    ensures forall k :: 0 <= k < |r| ==>
      r[k].artworkId != id && r[k].score >= threshold && known(r[k].artworkId)
    ensures forall i, j :: 0 <= i < j < |r| ==> r[i].score >= r[j].score
    ensures var n := |ClipRanking(store, id, threshold, cosine, known)|; |r| == if limit < n then limit else n
    ensures r == ClipRanking(store, id, threshold, cosine, known)[..|r|]
  {
    var ranking := ClipRanking(store, id, threshold, cosine, known);
    ClipRankingFacts(store, id, threshold, cosine, known);
    SliceToSorted(ranking, limit, ClipRank);
    SliceTo(ranking, limit)
  }

  lemma ClipRankingFacts(store: seq<FeatureRecord>, id: ArtworkId, threshold: real,
                         cosine: (Embedding, Embedding) -> real, known: ArtworkId -> bool)
    ensures Sorted(ClipRanking(store, id, threshold, cosine, known), ClipRank)
    ensures forall m :: m in ClipRanking(store, id, threshold, cosine, known) ==>
      m.artworkId != id && m.score >= threshold && known(m.artworkId)
  {
    match FindFeatures(store, id)
    case None =>
    case Some(source) =>
      if |source.embedding| > 0 {
        var cands := ClipCandidates(source.embedding, Scanned(store), id, threshold, cosine, known);
        var sorted := SortBy(cands, ClipRank);
        forall m | m in sorted
          ensures m.artworkId != id && m.score >= threshold && known(m.artworkId)
        {
          assert m in multiset(cands);
          var k :| 0 <= k < |cands| && cands[k] == m;
          assert FromClipHit(m, source.embedding, Scanned(store), id, threshold, cosine, known);
        }
      }
  }

  /** Every scanned embedding hit is ranked, and a hit cut off by the limit is no more similar than any result. */
  lemma ClipSearchComplete(store: seq<FeatureRecord>, id: ArtworkId, threshold: real, limit: nat,
                           cosine: (Embedding, Embedding) -> real, known: ArtworkId -> bool, j: nat)
    requires FindFeatures(store, id).Some? && |FindFeatures(store, id).value.embedding| > 0
    requires j < |Scanned(store)|
    requires ClipHit(FindFeatures(store, id).value.embedding, Scanned(store)[j], id, threshold, cosine, known)
    ensures ToClipMatch(FindFeatures(store, id).value.embedding, Scanned(store)[j], cosine)
            in ClipRanking(store, id, threshold, cosine, known)
    ensures var m := ToClipMatch(FindFeatures(store, id).value.embedding, Scanned(store)[j], cosine);
            var r := FindSimilarByClip(store, id, threshold, limit, cosine, known);
            m !in r ==> forall k :: 0 <= k < |r| ==> r[k].score >= m.score
  {
    var source := FindFeatures(store, id).value.embedding;
    var recs := Scanned(store);
    var m := ToClipMatch(source, recs[j], cosine);
    ClipHitIsCandidate(source, recs, id, threshold, cosine, known, j);
    var ranking := ClipRanking(store, id, threshold, cosine, known);
    ClipRankingFacts(store, id, threshold, cosine, known);
    assert m in multiset(ranking);
    var r := FindSimilarByClip(store, id, threshold, limit, cosine, known);
    if m !in r {
      var p :| 0 <= p < |ranking| && ranking[p] == m;
      assert p >= |r|;
      forall k | 0 <= k < |r| ensures r[k].score >= m.score {
        assert r[k] == ranking[k];
      }
    }
  }

  lemma {:induction false} ClipHitIsCandidate(source: Embedding, records: seq<FeatureRecord>, id: ArtworkId,
                                              threshold: real, cosine: (Embedding, Embedding) -> real,
                                              known: ArtworkId -> bool, j: nat)
    requires j < |records| && ClipHit(source, records[j], id, threshold, cosine, known)
    ensures ToClipMatch(source, records[j], cosine) in ClipCandidates(source, records, id, threshold, cosine, known)
  {
    if j > 0 {
      assert records[1..][j - 1] == records[j];
      ClipHitIsCandidate(source, records[1..], id, threshold, cosine, known, j - 1);
    }
  }

  // ---------------------------------------------------------------------------
  // Hybrid search
  // ---------------------------------------------------------------------------

  /** One entry of the hybrid result dictionary; a missing key is `None`. */
  datatype HybridMatch = HybridMatch(artworkId: ArtworkId, score: real, hashScore: Option<real>,
                                     clipScore: Option<real>, methods: seq<Method>)

  function HashIdOf(m: HashMatch): ArtworkId { m.artworkId }
  function ClipIdOf(m: ClipMatch): ArtworkId { m.artworkId }
  function HybridIdOf(e: HybridMatch): ArtworkId { e.artworkId }

  /** The entry a hash match creates. */
  function HashEntry(h: HashMatch): HybridMatch {
    HybridMatch(h.artworkId, h.score, Some(h.score), None, [PerceptualHash])
  }

  /** The entry an embedding match creates for an artwork not seen yet. */
  function ClipEntry(c: ClipMatch): HybridMatch {
    HybridMatch(c.artworkId, c.score, None, Some(c.score), [ClipEmbedding])
  }

  /** Position of the dictionary key `id`, if present. */
  function IndexOfId(entries: seq<HybridMatch>, id: ArtworkId): (r: Option<nat>)
    ensures r.Some? ==> r.value < |entries| && entries[r.value].artworkId == id
                        && forall k :: 0 <= k < r.value ==> entries[k].artworkId != id
    ensures r.None? ==> forall k :: 0 <= k < |entries| ==> entries[k].artworkId != id
  {
    if |entries| == 0 then None
    else if entries[0].artworkId == id then Some(0)
    else match IndexOfId(entries[1..], id)
      case None => None
      case Some(k) => Some(k + 1)
  }

  /** `combined[aid] = entry`: overwritten in place if the key exists, appended otherwise. */
  function Put(entries: seq<HybridMatch>, e: HybridMatch): seq<HybridMatch> {
    match IndexOfId(entries, e.artworkId)
    case Some(k) => entries[k := e]
    case None => entries + [e]
  }

  /** The first loop of `find_similar_hybrid`. */
  function MergeHashes(acc: seq<HybridMatch>, hs: seq<HashMatch>): seq<HybridMatch>
    decreases |hs|
  {
    if |hs| == 0 then acc else MergeHashes(Put(acc, HashEntry(hs[0])), hs[1..])
  }

  /** Reading `combined[aid]["hash_score"]` of an entry created by an embedding match. */
  const MISSING_HASH_SCORE: string := "KeyError: 'hash_score'"

  /** One step of the second loop: combine with an existing entry or add a new one. */
  function AddClip(acc: seq<HybridMatch>, c: ClipMatch): Result<seq<HybridMatch>> {
    match IndexOfId(acc, c.artworkId)
    case None => Success(acc + [ClipEntry(c)])
    case Some(k) =>
      match acc[k].hashScore
      case None => Failure(MISSING_HASH_SCORE)
      case Some(h) =>
        Success(acc[k := acc[k].(clipScore := Some(c.score), methods := acc[k].methods + [ClipEmbedding],
                                 score := (h + c.score) / 2.0)])
  }

  /** The second loop of `find_similar_hybrid`; the first error ends it. */
  function MergeClips(acc: seq<HybridMatch>, cs: seq<ClipMatch>): Result<seq<HybridMatch>>
    decreases |cs|
  {
    if |cs| == 0 then Success(acc)
    else match AddClip(acc, cs[0])
      case Failure(e) => Failure(e)
      case Success(next) => MergeClips(next, cs[1..])
  }

  /** Descending by combined score. */
  function HybridRank(e: HybridMatch): real {
    -e.score
  }

  /** `find_similar_hybrid`: both searches with twice the limit, merged by artwork, best first. */
  function FindSimilarHybrid(store: seq<FeatureRecord>, id: ArtworkId, hashThreshold: int, clipThreshold: real,
                             limit: nat, cosine: (Embedding, Embedding) -> real, known: ArtworkId -> bool)
    : (r: Result<seq<HybridMatch>>)
    ensures r.Success? ==> |r.value| <= limit
    ensures r.Success? ==> forall i, j :: 0 <= i < j < |r.value| ==> r.value[i].score >= r.value[j].score
  {
    var hs := FindSimilarByHash(store, id, hashThreshold, 2 * limit, known);
    var cs := FindSimilarByClip(store, id, clipThreshold, 2 * limit, cosine, known);
    match MergeClips(MergeHashes([], hs), cs)
    case Failure(e) => Failure(e)
    case Success(entries) =>
      var sorted := SortBy(entries, HybridRank);
      var r := SliceTo(sorted, limit);
      assert forall k :: 0 <= k < |r| ==> r[k] == sorted[k];
      Success(r)
  }

  // The declarative meaning of the merge, for hash and embedding lists without repeated artworks.

  predicate HasHashId(hs: seq<HashMatch>, id: ArtworkId) {
    exists i :: 0 <= i < |hs| && hs[i].artworkId == id
  }

  /** The first embedding match for the artwork. */
  function ClipFor(cs: seq<ClipMatch>, id: ArtworkId): (r: Option<ClipMatch>)
    ensures r.Some? ==> r.value in cs && r.value.artworkId == id
    ensures r.None? ==> forall j :: 0 <= j < |cs| ==> cs[j].artworkId != id
  {
    if |cs| == 0 then None
    else match ClipFor(cs[..|cs| - 1], id)
      case Some(c) => Some(c)
      case None => if cs[|cs| - 1].artworkId == id then Some(cs[|cs| - 1]) else None
  }

  /** A hash match, combined with the artwork's embedding match when there is one. */
  function Combine(h: HashMatch, c: Option<ClipMatch>): HybridMatch {
    match c
    case None => HashEntry(h)
    case Some(m) =>
      HybridMatch(h.artworkId, (h.score + m.score) / 2.0, Some(h.score), Some(m.score), [PerceptualHash, ClipEmbedding])
  }

  /** One entry per hash match, in hash order. */
  function HashPart(hs: seq<HashMatch>, cs: seq<ClipMatch>): (r: seq<HybridMatch>)
    ensures |r| == |hs|
    ensures forall i :: 0 <= i < |hs| ==> r[i] == Combine(hs[i], ClipFor(cs, hs[i].artworkId))
  {
    seq(|hs|, i requires 0 <= i < |hs| => Combine(hs[i], ClipFor(cs, hs[i].artworkId)))
  }

  /** One entry per embedding match whose artwork the hash search did not return, in embedding order. */
  function ClipPart(hs: seq<HashMatch>, cs: seq<ClipMatch>): seq<HybridMatch> {
    if |cs| == 0 then []
    else
      var last := cs[|cs| - 1];
      ClipPart(hs, cs[..|cs| - 1]) + (if HasHashId(hs, last.artworkId) then [] else [ClipEntry(last)])
  }

  /** Exactly the embedding matches whose artwork the hash search did not return have an entry. */
  lemma {:induction false} ClipPartMembers(hs: seq<HashMatch>, cs: seq<ClipMatch>)
    ensures forall e :: e in ClipPart(hs, cs) ==> exists c :: c in cs && !HasHashId(hs, c.artworkId) && e == ClipEntry(c)
    ensures forall j :: 0 <= j < |cs| && !HasHashId(hs, cs[j].artworkId) ==> ClipEntry(cs[j]) in ClipPart(hs, cs)
    decreases |cs|
  {
    if |cs| > 0 {
      var init := cs[..|cs| - 1];
      ClipPartMembers(hs, init);
      assert forall j :: 0 <= j < |init| ==> init[j] == cs[j];
      assert forall c :: c in init ==> c in cs;
    }
  }

  /** The merged dictionary's values, in insertion order. */
  function Reference(hs: seq<HashMatch>, cs: seq<ClipMatch>): seq<HybridMatch> {
    HashPart(hs, cs) + ClipPart(hs, cs)
  }

  /**
    What a hybrid entry means: it carries a hash score exactly when the hash search
    returned the artwork, an embedding score exactly when the embedding search did,
    the methods that found it, and as its score the mean of the two or the one it has.
   */
  predicate HybridEntryFor(e: HybridMatch, hs: seq<HashMatch>, cs: seq<ClipMatch>) {
    && (e.hashScore.Some? || e.clipScore.Some?)
    && (e.hashScore.Some? <==> HasHashId(hs, e.artworkId))
    && (e.clipScore.Some? <==> exists j :: 0 <= j < |cs| && cs[j].artworkId == e.artworkId)
    && (forall i :: 0 <= i < |hs| && hs[i].artworkId == e.artworkId ==> e.hashScore == Some(hs[i].score))
    && (forall j :: 0 <= j < |cs| && cs[j].artworkId == e.artworkId ==> e.clipScore == Some(cs[j].score))
    && e.methods == (if e.hashScore.Some? then [PerceptualHash] else []) + (if e.clipScore.Some? then [ClipEmbedding] else [])
    && e.score == (if e.hashScore.Some? && e.clipScore.Some? then (e.hashScore.value + e.clipScore.value) / 2.0
                   else if e.hashScore.Some? then e.hashScore.value
                   else e.clipScore.value)
  }

  lemma {:induction false} MergeHashesFrom(hs: seq<HashMatch>, n: nat)
    requires n <= |hs| && DistinctBy(hs, HashIdOf)
    ensures MergeHashes(HashPart(hs[..n], []), hs[n..]) == HashPart(hs, [])
    decreases |hs| - n
  {
    if n == |hs| {
      assert hs[..n] == hs;
    } else {
      HashPartGrows(hs, n);
      assert hs[n..][0] == hs[n] && hs[n..][1..] == hs[n + 1..];
      MergeHashesFrom(hs, n + 1);
    }
  }

  /** The next hash match is a new key, so putting its entry appends it. */
  lemma HashPartGrows(hs: seq<HashMatch>, n: nat)
    requires n < |hs| && DistinctBy(hs, HashIdOf)
    ensures Put(HashPart(hs[..n], []), HashEntry(hs[n])) == HashPart(hs[..n + 1], [])
  {
    var acc := HashPart(hs[..n], []);
    assert forall x :: 0 <= x < |acc| ==> acc[x].artworkId == hs[x].artworkId != hs[n].artworkId;
    PutNewKey(acc, HashEntry(hs[n]));
    assert hs[..n + 1][n] == hs[n];
    assert forall x :: 0 <= x < n ==> hs[..n + 1][x] == hs[..n][x];
  }

  lemma PutNewKey(entries: seq<HybridMatch>, e: HybridMatch)
    requires forall x :: 0 <= x < |entries| ==> entries[x].artworkId != e.artworkId
    ensures Put(entries, e) == entries + [e]
  {
    assert IndexOfId(entries, e.artworkId) == None;
  }

  lemma ClipForSnoc(done: seq<ClipMatch>, c: ClipMatch, id: ArtworkId)
    ensures ClipFor(done + [c], id)
         == (if ClipFor(done, id).Some? then ClipFor(done, id) else if c.artworkId == id then Some(c) else None)
  {
    assert (done + [c])[..|done|] == done;
  }

  lemma ClipPartSnoc(hs: seq<HashMatch>, done: seq<ClipMatch>, c: ClipMatch)
    ensures ClipPart(hs, done + [c])
         == ClipPart(hs, done) + (if HasHashId(hs, c.artworkId) then [] else [ClipEntry(c)])
  {
    assert (done + [c])[..|done|] == done;
  }

  /** One embedding match for a new artwork takes the dictionary from one reference state to the next. */
  lemma AddClipStep(hs: seq<HashMatch>, done: seq<ClipMatch>, c: ClipMatch)
    requires DistinctBy(hs, HashIdOf)
    requires forall j :: 0 <= j < |done| ==> done[j].artworkId != c.artworkId
    ensures AddClip(Reference(hs, done), c) == Success(Reference(hs, done + [c]))
  {
    ClipPartSnoc(hs, done, c);
    assert ClipFor(done, c.artworkId) == None;
    if HasHashId(hs, c.artworkId) {
      assert ClipPart(hs, done) + [] == ClipPart(hs, done);
      AddClipToHashed(hs, done, c);
    } else {
      var hp2, cp := HashPart(hs, done + [c]), ClipPart(hs, done);
      assert hp2 + (cp + [ClipEntry(c)]) == hp2 + cp + [ClipEntry(c)];
      AddClipNew(hs, done, c);
    }
  }

  lemma AddClipToHashed(hs: seq<HashMatch>, done: seq<ClipMatch>, c: ClipMatch)
    requires DistinctBy(hs, HashIdOf) && HasHashId(hs, c.artworkId) && ClipFor(done, c.artworkId) == None
    ensures AddClip(Reference(hs, done), c) == Success(HashPart(hs, done + [c]) + ClipPart(hs, done))
  {
    var k :| 0 <= k < |hs| && hs[k].artworkId == c.artworkId;
    var hp := HashPart(hs, done);
    HashPartAddHashed(hs, done, c, k);
    assert forall x :: 0 <= x < |hs| ==> hp[x].artworkId == hs[x].artworkId;
    AddClipCombines(hp, ClipPart(hs, done), HashPart(hs, done + [c]), hs, c, k);
  }

  /**
    An embedding match for the artwork of the hash entry at `k`, which has no
    embedding score yet, combines with that entry in place.
   */
  lemma AddClipCombines(hp: seq<HybridMatch>, cp: seq<HybridMatch>, hp2: seq<HybridMatch>, hs: seq<HashMatch>,
                        c: ClipMatch, k: nat)
    requires DistinctBy(hs, HashIdOf) && k < |hs| && hs[k].artworkId == c.artworkId
    requires |hp| == |hs| && forall x :: 0 <= x < |hs| ==> hp[x].artworkId == hs[x].artworkId
    requires hp[k] == HashEntry(hs[k]) && hp2 == hp[k := Combine(hs[k], Some(c))]
    ensures AddClip(hp + cp, c) == Success(hp2 + cp)
  {
    var ref := hp + cp;
    assert ref[k] == hp[k];
    assert forall x :: 0 <= x < k ==> ref[x].artworkId == hs[x].artworkId != c.artworkId;
    assert IndexOfId(ref, c.artworkId) == Some(k);
    assert [PerceptualHash] + [ClipEmbedding] == [PerceptualHash, ClipEmbedding];
    UpdateInFront(hp, cp, k, Combine(hs[k], Some(c)));
  }

  /** A first embedding match for a hashed artwork changes only that artwork's hash entry. */
  lemma HashPartAddHashed(hs: seq<HashMatch>, done: seq<ClipMatch>, c: ClipMatch, k: nat)
    requires DistinctBy(hs, HashIdOf) && k < |hs| && hs[k].artworkId == c.artworkId
    requires ClipFor(done, c.artworkId) == None
    ensures HashPart(hs, done + [c]) == HashPart(hs, done)[k := Combine(hs[k], Some(c))]
  {
    var hp, hp2 := HashPart(hs, done), HashPart(hs, done + [c]);
    forall i | 0 <= i < |hs| ensures hp2[i] == hp[k := Combine(hs[k], Some(c))][i] {
      ClipForSnoc(done, c, hs[i].artworkId);
    }
  }

  lemma UpdateInFront<T>(a: seq<T>, b: seq<T>, k: nat, x: T)
    requires k < |a|
    ensures (a + b)[k := x] == a[k := x] + b
  {
    var l, r := (a + b)[k := x], a[k := x] + b;
    assert forall i :: 0 <= i < |l| ==> l[i] == r[i];
  }

  lemma AddClipNew(hs: seq<HashMatch>, done: seq<ClipMatch>, c: ClipMatch)
    requires !HasHashId(hs, c.artworkId)
    requires forall j :: 0 <= j < |done| ==> done[j].artworkId != c.artworkId
    ensures AddClip(Reference(hs, done), c) == Success(HashPart(hs, done + [c]) + ClipPart(hs, done) + [ClipEntry(c)])
  {
    var hp := HashPart(hs, done);
    var cp := ClipPart(hs, done);
    var ref := hp + cp;
    var hp2 := HashPart(hs, done + [c]);
    assert forall x :: 0 <= x < |hp| ==> hp[x].artworkId == hs[x].artworkId;
    ClipPartMembers(hs, done);
    forall e | e in cp ensures e.artworkId != c.artworkId {
      var c' :| c' in done && !HasHashId(hs, c'.artworkId) && e == ClipEntry(c');
    }
    forall x | 0 <= x < |ref| ensures ref[x].artworkId != c.artworkId {
      if x >= |hp| {
        assert ref[x] == cp[x - |hp|];
      }
    }
    assert IndexOfId(ref, c.artworkId) == None;
    forall i | 0 <= i < |hs| ensures hp2[i] == hp[i] {
      ClipForSnoc(done, c, hs[i].artworkId);
    }
    assert hp2 == hp;
  }

  lemma {:induction false} MergeClipsFrom(hs: seq<HashMatch>, done: seq<ClipMatch>, rest: seq<ClipMatch>)
    requires DistinctBy(hs, HashIdOf) && DistinctBy(done + rest, ClipIdOf)
    ensures MergeClips(Reference(hs, done), rest) == Success(Reference(hs, done + rest))
    decreases |rest|
  {
    if |rest| == 0 {
      assert done + rest == done;
    } else {
      var c := rest[0];
      forall j | 0 <= j < |done| ensures done[j].artworkId != c.artworkId {
        assert (done + rest)[j] == done[j] && (done + rest)[|done|] == c;
      }
      AddClipStep(hs, done, c);
      assert done + rest == (done + [c]) + rest[1..];
      MergeClipsFrom(hs, done + [c], rest[1..]);
    }
  }

  /** For lists without repeated artworks the dictionary fold computes the reference merge, and never fails. */
  lemma MergeIsReference(hs: seq<HashMatch>, cs: seq<ClipMatch>)
    requires DistinctBy(hs, HashIdOf) && DistinctBy(cs, ClipIdOf)
    ensures MergeClips(MergeHashes([], hs), cs) == Success(Reference(hs, cs))
  {
    assert hs[..0] == [] && hs[0..] == hs;
    MergeHashesFrom(hs, 0);
    assert Reference(hs, []) == HashPart(hs, []);
    assert [] + cs == cs;
    MergeClipsFrom(hs, [], cs);
  }

  predicate HasHybridId(entries: seq<HybridMatch>, id: ArtworkId) {
    exists k :: 0 <= k < |entries| && entries[k].artworkId == id
  }

  /** The reference merge: one correct entry per artwork either search returned, and no other. */
  lemma ReferenceEntries(hs: seq<HashMatch>, cs: seq<ClipMatch>)
    requires DistinctBy(hs, HashIdOf) && DistinctBy(cs, ClipIdOf)
    ensures forall e :: e in Reference(hs, cs) ==> HybridEntryFor(e, hs, cs)
    ensures DistinctBy(Reference(hs, cs), HybridIdOf)
    ensures forall i :: 0 <= i < |hs| ==> HasHybridId(Reference(hs, cs), hs[i].artworkId)
    ensures forall j :: 0 <= j < |cs| ==> HasHybridId(Reference(hs, cs), cs[j].artworkId)
  {
    var hp := HashPart(hs, cs);
    var cp := ClipPart(hs, cs);
    var ref := hp + cp;
    HashPartEntries(hs, cs);
    ClipPartEntries(hs, cs);
    forall e | e in ref ensures HybridEntryFor(e, hs, cs) {
      if e !in cp {
        var x :| 0 <= x < |ref| && ref[x] == e;
        assert ref[x] == hp[x];
      }
    }
    ReferenceDistinct(hs, cs);
    ReferenceComplete(hs, cs);
  }

  lemma HashPartEntries(hs: seq<HashMatch>, cs: seq<ClipMatch>)
    requires DistinctBy(hs, HashIdOf) && DistinctBy(cs, ClipIdOf)
    ensures forall e :: e in HashPart(hs, cs) ==> HybridEntryFor(e, hs, cs)
  {
    var hp := HashPart(hs, cs);
    forall i | 0 <= i < |hs| ensures HybridEntryFor(hp[i], hs, cs) {
      match ClipFor(cs, hs[i].artworkId)
      case None =>
      case Some(m) =>
        var j :| 0 <= j < |cs| && cs[j] == m;
    }
  }

  lemma ClipPartEntries(hs: seq<HashMatch>, cs: seq<ClipMatch>)
    requires DistinctBy(cs, ClipIdOf)
    ensures forall e :: e in ClipPart(hs, cs) ==> HybridEntryFor(e, hs, cs)
  {
    ClipPartMembers(hs, cs);
    forall e | e in ClipPart(hs, cs) ensures HybridEntryFor(e, hs, cs) {
      var c :| c in cs && !HasHashId(hs, c.artworkId) && e == ClipEntry(c);
      ClipEntryFor(c, hs, cs);
    }
  }

  lemma ClipEntryFor(c: ClipMatch, hs: seq<HashMatch>, cs: seq<ClipMatch>)
    requires DistinctBy(cs, ClipIdOf) && c in cs && !HasHashId(hs, c.artworkId)
    ensures HybridEntryFor(ClipEntry(c), hs, cs)
  {
    var i :| 0 <= i < |cs| && cs[i] == c;
    assert forall j :: 0 <= j < |cs| && cs[j].artworkId == c.artworkId ==> j == i;
  }

  lemma ReferenceDistinct(hs: seq<HashMatch>, cs: seq<ClipMatch>)
    requires DistinctBy(hs, HashIdOf) && DistinctBy(cs, ClipIdOf)
    ensures DistinctBy(Reference(hs, cs), HybridIdOf)
  {
    var hp := HashPart(hs, cs);
    var cp := ClipPart(hs, cs);
    var ref := hp + cp;
    ClipPartDistinct(hs, cs);
    ClipPartMembers(hs, cs);
    forall x, y | 0 <= x < y < |ref| ensures ref[x].artworkId != ref[y].artworkId {
      if y < |hp| {
        assert ref[x] == hp[x] && ref[y] == hp[y];
      } else if x < |hp| {
        assert ref[y] == cp[y - |hp|];
        assert ref[y] in cp;
        var c :| c in cs && !HasHashId(hs, c.artworkId) && ref[y] == ClipEntry(c);
        assert ref[x].artworkId == hs[x].artworkId;
      } else {
        assert ref[x] == cp[x - |hp|] && ref[y] == cp[y - |hp|];
      }
    }
  }

  lemma ReferenceComplete(hs: seq<HashMatch>, cs: seq<ClipMatch>)
    ensures forall i :: 0 <= i < |hs| ==> HasHybridId(Reference(hs, cs), hs[i].artworkId)
    ensures forall j :: 0 <= j < |cs| ==> HasHybridId(Reference(hs, cs), cs[j].artworkId)
  {
    var hp := HashPart(hs, cs);
    var cp := ClipPart(hs, cs);
    var ref := hp + cp;
    ClipPartMembers(hs, cs);
    forall i | 0 <= i < |hs| ensures HasHybridId(ref, hs[i].artworkId) {
      assert ref[i] == hp[i];
    }
    forall j | 0 <= j < |cs| ensures HasHybridId(ref, cs[j].artworkId) {
      if HasHashId(hs, cs[j].artworkId) {
        var i :| 0 <= i < |hs| && hs[i].artworkId == cs[j].artworkId;
        assert ref[i] == hp[i];
      } else {
        var e := ClipEntry(cs[j]);
        assert e in cp;
        var k :| 0 <= k < |cp| && cp[k] == e;
        assert ref[|hp| + k] == e;
      }
    }
  }

  lemma {:induction false} ClipPartDistinct(hs: seq<HashMatch>, cs: seq<ClipMatch>)
    requires DistinctBy(cs, ClipIdOf)
    ensures DistinctBy(ClipPart(hs, cs), HybridIdOf)
  {
    if |cs| > 0 {
      var init := cs[..|cs| - 1];
      var last := cs[|cs| - 1];
      assert DistinctBy(init, ClipIdOf);
      ClipPartDistinct(hs, init);
      var front := ClipPart(hs, init);
      ClipPartMembers(hs, init);
      forall e | e in front ensures e.artworkId != last.artworkId {
        var c :| c in init && !HasHashId(hs, c.artworkId) && e == ClipEntry(c);
        var j :| 0 <= j < |init| && init[j] == c;
        assert cs[j] == c;
      }
      if !HasHashId(hs, last.artworkId) {
        var r := front + [ClipEntry(last)];
        assert r == ClipPart(hs, cs);
        forall x, y | 0 <= x < y < |r| ensures r[x].artworkId != r[y].artworkId {
          if y == |front| {
            assert r[x] in front;
          } else {
            assert r[x] == front[x] && r[y] == front[y];
          }
        }
      }
    }
  }

  // ---------------------------------------------------------------------------
  // Distinct artworks in, distinct artworks out
  // ---------------------------------------------------------------------------

  lemma {:induction false} HashCandidatesDistinct(source: Hash, records: seq<FeatureRecord>, id: ArtworkId,
                                                  threshold: int, known: ArtworkId -> bool)
    requires DistinctRecordIds(records)
    ensures DistinctBy(HashCandidates(source, records, id, threshold, known), HashIdOf)
  {
    if |records| > 0 {
      var tail := records[1..];
      assert DistinctRecordIds(tail);
      HashCandidatesDistinct(source, tail, id, threshold, known);
      var rest := HashCandidates(source, tail, id, threshold, known);
      if HashHit(source, records[0], id, threshold, known) {
        forall k | 0 <= k < |rest| ensures rest[k].artworkId != records[0].artworkId {
          assert FromHashHit(rest[k], source, tail, id, threshold, known);
          var j :| 0 <= j < |tail| && HashHit(source, tail[j], id, threshold, known) && rest[k] == ToHashMatch(source, tail[j]);
          assert tail[j] == records[j + 1];
        }
        DistinctPrepend(ToHashMatch(source, records[0]), rest, HashIdOf);
      }
    }
  }

  lemma {:induction false} ClipCandidatesDistinct(source: Embedding, records: seq<FeatureRecord>, id: ArtworkId,
                                                  threshold: real, cosine: (Embedding, Embedding) -> real,
                                                  known: ArtworkId -> bool)
    requires DistinctRecordIds(records)
    ensures DistinctBy(ClipCandidates(source, records, id, threshold, cosine, known), ClipIdOf)
  {
    if |records| > 0 {
      var tail := records[1..];
      assert DistinctRecordIds(tail);
      ClipCandidatesDistinct(source, tail, id, threshold, cosine, known);
      var rest := ClipCandidates(source, tail, id, threshold, cosine, known);
      if ClipHit(source, records[0], id, threshold, cosine, known) {
        forall k | 0 <= k < |rest| ensures rest[k].artworkId != records[0].artworkId {
          assert FromClipHit(rest[k], source, tail, id, threshold, cosine, known);
          var j :| 0 <= j < |tail| && ClipHit(source, tail[j], id, threshold, cosine, known)
                   && rest[k] == ToClipMatch(source, tail[j], cosine);
          assert tail[j] == records[j + 1];
        }
        DistinctPrepend(ToClipMatch(source, records[0], cosine), rest, ClipIdOf);
      }
    }
  }

  lemma PrefixDistinct<T, K>(s: seq<T>, n: nat, key: T -> K)
    requires n <= |s| && DistinctBy(s, key)
    ensures DistinctBy(s[..n], key)
  {
    assert forall i :: 0 <= i < n ==> s[..n][i] == s[i];
  }

  /** A store with one record per artwork yields hash results with one entry per artwork. */
  lemma HashResultsDistinct(store: seq<FeatureRecord>, id: ArtworkId, threshold: int, limit: nat, known: ArtworkId -> bool)
    requires DistinctRecordIds(store)
    ensures DistinctBy(FindSimilarByHash(store, id, threshold, limit, known), HashIdOf)
  {
    var ranking := HashRanking(store, id, threshold, known);
    match FindFeatures(store, id)
    case None =>
    case Some(source) =>
      if |source.phash| > 0 {
        var scan := Scanned(store);
        assert forall i :: 0 <= i < |scan| ==> scan[i] == store[i];
        HashCandidatesDistinct(source.phash, scan, id, threshold, known);
        var cands := HashCandidates(source.phash, scan, id, threshold, known);
        PermutationKeepsDistinct(cands, SortBy(cands, HashRank), HashIdOf);
      }
    var r := FindSimilarByHash(store, id, threshold, limit, known);
    PrefixDistinct(ranking, |r|, HashIdOf);
  }

  /** A store with one record per artwork yields embedding results with one entry per artwork. */
  lemma ClipResultsDistinct(store: seq<FeatureRecord>, id: ArtworkId, threshold: real, limit: nat,
                            cosine: (Embedding, Embedding) -> real, known: ArtworkId -> bool)
    requires DistinctRecordIds(store)
    ensures DistinctBy(FindSimilarByClip(store, id, threshold, limit, cosine, known), ClipIdOf)
  {
    var ranking := ClipRanking(store, id, threshold, cosine, known);
    match FindFeatures(store, id)
    case None =>
    case Some(source) =>
      if |source.embedding| > 0 {
        var scan := Scanned(store);
        assert forall i :: 0 <= i < |scan| ==> scan[i] == store[i];
        ClipCandidatesDistinct(source.embedding, scan, id, threshold, cosine, known);
        var cands := ClipCandidates(source.embedding, scan, id, threshold, cosine, known);
        PermutationKeepsDistinct(cands, SortBy(cands, ClipRank), ClipIdOf);
      }
    var r := FindSimilarByClip(store, id, threshold, limit, cosine, known);
    PrefixDistinct(ranking, |r|, ClipIdOf);
  }

  /**
    With one record per artwork the hybrid search succeeds, lists each artwork once,
    gives every entry the scores and methods of the searches that found it, never
    lists the source, and leaves out only entries scoring no higher than any it keeps.
   */
  lemma HybridResults(store: seq<FeatureRecord>, id: ArtworkId, hashThreshold: int, clipThreshold: real,
                      limit: nat, cosine: (Embedding, Embedding) -> real, known: ArtworkId -> bool)
    requires DistinctRecordIds(store)
    ensures var hs := FindSimilarByHash(store, id, hashThreshold, 2 * limit, known);
            var cs := FindSimilarByClip(store, id, clipThreshold, 2 * limit, cosine, known);
            var r := FindSimilarHybrid(store, id, hashThreshold, clipThreshold, limit, cosine, known);
            && r.Success?
            && |r.value| == (if limit < |Reference(hs, cs)| then limit else |Reference(hs, cs)|)
            && DistinctBy(r.value, HybridIdOf)
            && (forall e :: e in r.value ==> HybridEntryFor(e, hs, cs) && e.artworkId != id && known(e.artworkId))
            && (forall e :: e in Reference(hs, cs) && e !in r.value ==>
                  forall k :: 0 <= k < |r.value| ==> r.value[k].score >= e.score)
  {
    var hs := FindSimilarByHash(store, id, hashThreshold, 2 * limit, known);
    var cs := FindSimilarByClip(store, id, clipThreshold, 2 * limit, cosine, known);
    HashResultsDistinct(store, id, hashThreshold, 2 * limit, known);
    ClipResultsDistinct(store, id, clipThreshold, 2 * limit, cosine, known);
    MergeIsReference(hs, cs);
    ReferenceEntries(hs, cs);
    var ref := Reference(hs, cs);
    var r := SliceTo(SortBy(ref, HybridRank), limit);
    assert FindSimilarHybrid(store, id, hashThreshold, clipThreshold, limit, cosine, known) == Success(r);
    RankedPrefix(ref, limit);
    forall e | e in r ensures HybridEntryFor(e, hs, cs) && e.artworkId != id && known(e.artworkId) {
      HybridEntryIsOther(e, hs, cs, id, hashThreshold, clipThreshold, known);
    }
  }

  /** Sorting merged entries best first and cutting at the limit keeps only merged entries, each once, and the best ones. */
  lemma RankedPrefix(entries: seq<HybridMatch>, limit: nat)
    requires DistinctBy(entries, HybridIdOf)
    ensures var r := SliceTo(SortBy(entries, HybridRank), limit);
            && DistinctBy(r, HybridIdOf)
            && (forall e :: e in r ==> e in entries)
            && (forall e :: e in entries && e !in r ==> forall k :: 0 <= k < |r| ==> r[k].score >= e.score)
  {
    var sorted := SortBy(entries, HybridRank);
    var r := SliceTo(sorted, limit);
    PermutationKeepsDistinct(entries, sorted, HybridIdOf);
    PrefixDistinct(sorted, |r|, HybridIdOf);
    forall e | e in r ensures e in entries {
      assert e in multiset(sorted);
    }
    forall e | e in entries && e !in r ensures forall k :: 0 <= k < |r| ==> r[k].score >= e.score {
      assert e in multiset(sorted);
      var p :| 0 <= p < |sorted| && sorted[p] == e;
      assert p >= |r|;
      forall k | 0 <= k < |r| ensures r[k].score >= e.score {
        assert r[k] == sorted[k];
      }
    }
  }

  lemma HybridEntryIsOther(e: HybridMatch, hs: seq<HashMatch>, cs: seq<ClipMatch>, id: ArtworkId,
                           hashThreshold: int, clipThreshold: real, known: ArtworkId -> bool)
    requires HybridEntryFor(e, hs, cs)
    requires forall k :: 0 <= k < |hs| ==> ValidHashResult(hs[k], id, hashThreshold, known)
    requires forall k :: 0 <= k < |cs| ==> cs[k].artworkId != id && cs[k].score >= clipThreshold && known(cs[k].artworkId)
    ensures e.artworkId != id && known(e.artworkId)
  {
    if e.hashScore.Some? {
      var i :| 0 <= i < |hs| && hs[i].artworkId == e.artworkId;
      assert ValidHashResult(hs[i], id, hashThreshold, known);
    } else {
      var j :| 0 <= j < |cs| && cs[j].artworkId == e.artworkId;
    }
  }

  /** The same artwork twice among the embedding matches, with no hash match, ends in the missing-key error. */
  lemma RepeatedEmbeddingMatchFails(c: ClipMatch)
    ensures MergeClips(MergeHashes([], []), [c, c]) == Failure(MISSING_HASH_SCORE)
  {
    var first := [ClipEntry(c)];
    assert [] + first == first;
    assert AddClip([], c) == Success(first);
    assert [c, c][1..] == [c];
    assert IndexOfId(first, c.artworkId) == Some(0);
  }

  // ---------------------------------------------------------------------------
  // Duplicate groups
  // ---------------------------------------------------------------------------

  /** One artwork of a duplicate group: the anchor carries no distance, a member its distance to the anchor. */
  datatype DuplicateEntry = DuplicateEntry(artworkId: ArtworkId, distance: Option<nat>)

  datatype DuplicateGroup = DuplicateGroup(groupSize: nat, artworks: seq<DuplicateEntry>)

  /** A group with the position, among the records with a hash, of the record it was grown from. */
  datatype AnchoredGroup = AnchoredGroup(anchor: nat, entries: seq<DuplicateEntry>)

  function EntryIdOf(e: DuplicateEntry): ArtworkId { e.artworkId }

  predicate HasHash(f: FeatureRecord) {
    |f.phash| > 0
  }

  /**
    The records that have a perceptual hash: all of them, each as often as it is
    stored, in store order.
   */
  function WithHash(records: seq<FeatureRecord>): (r: seq<FeatureRecord>)
    ensures forall k :: 0 <= k < |r| ==> |r[k].phash| > 0 && r[k] in records
    ensures forall f :: f in records && |f.phash| > 0 ==> f in r
    ensures IsSubsequence(r, records)
    ensures forall f :: multiset(r)[f] == if |f.phash| > 0 then multiset(records)[f] else 0
  {
    FilterIsSubsequence(records, HasHash);
    FilterMultiplicity(records, HasHash);
    Filter(records, HasHash)
  }

  /** A group member: a later record within the threshold of the anchor record, with that distance. */
  predicate MemberOf(valid: seq<FeatureRecord>, i: nat, e: DuplicateEntry, threshold: int)
    requires i < |valid|
  {
    e.distance.Some? &&
    exists j :: i < j < |valid| && valid[j].artworkId == e.artworkId
                && e.distance.value == Distance(valid[i].phash, valid[j].phash) <= threshold
  }

  /**
    The entries of a group grown from `valid[i]`: existing artworks; the anchor, if
    present, first; every other entry a member of it.
   */
  predicate EntriesAnchored(valid: seq<FeatureRecord>, i: nat, entries: seq<DuplicateEntry>, threshold: int,
                            known: ArtworkId -> bool)
    requires i < |valid|
  {
    && (forall k :: 0 <= k < |entries| ==> known(entries[k].artworkId))
    && (forall k :: 0 <= k < |entries| && entries[k].distance.None? ==> k == 0 && entries[k].artworkId == valid[i].artworkId)
    && (forall k :: 0 <= k < |entries| && entries[k].distance.Some? ==> MemberOf(valid, i, entries[k], threshold))
  }

  predicate IdsIn(entries: seq<DuplicateEntry>, checked: set<ArtworkId>) {
    forall k :: 0 <= k < |entries| ==> entries[k].artworkId in checked
  }

  /**
    The state the inner loop of `find_duplicates` keeps for the anchor `valid[i]`:
    entries anchored to it, their artworks checked, and the anchor unchecked while the
    group is empty.
   */
  predicate GroupState(valid: seq<FeatureRecord>, i: nat, group: seq<DuplicateEntry>, checked: set<ArtworkId>,
                       threshold: int, known: ArtworkId -> bool)
    requires i < |valid|
  {
    && EntriesAnchored(valid, i, group, threshold, known)
    && IdsIn(group, checked)
    && (|group| == 0 ==> valid[i].artworkId !in checked)
    && (known(valid[i].artworkId) && |group| > 0 ==> group[0] == DuplicateEntry(valid[i].artworkId, None))
    && (DistinctRecordIds(valid) ==> DistinctBy(group, EntryIdOf))
  }

  /** `grown` extends `group` with artworks that were not checked before. */
  predicate ExtendsWithNew(group: seq<DuplicateEntry>, grown: seq<DuplicateEntry>, checked: set<ArtworkId>) {
    |group| <= |grown| && grown[..|group|] == group
    && forall k :: |group| <= k < |grown| ==> grown[k].artworkId !in checked
  }

  /** The body of the inner loop for an unchecked `valid[j]` within the threshold of the anchor. */
  function AddMatch(valid: seq<FeatureRecord>, i: nat, j: nat, group: seq<DuplicateEntry>, checked: set<ArtworkId>,
                    threshold: int, known: ArtworkId -> bool): (r: (seq<DuplicateEntry>, set<ArtworkId>))
    requires i < j < |valid|
    requires GroupState(valid, i, group, checked, threshold, known)
    requires valid[j].artworkId !in checked
    requires Distance(valid[i].phash, valid[j].phash) <= threshold
    ensures GroupState(valid, i, r.0, r.1, threshold, known)
    ensures checked <= r.1 && ExtendsWithNew(group, r.0, checked)
    ensures r.1 <= checked + {valid[i].artworkId, valid[j].artworkId}
    ensures known(valid[j].artworkId) ==> |r.0| > 0 && r.0[|r.0| - 1] == DuplicateEntry(valid[j].artworkId, Some(Distance(valid[i].phash, valid[j].phash)))
  {
    var f1, f2 := valid[i], valid[j];
    var addAnchor := |group| == 0 && known(f1.artworkId);
    var anchored := if addAnchor then [DuplicateEntry(f1.artworkId, None)] else group;
    var checked1 := if addAnchor then checked + {f1.artworkId} else checked;
    AnchorState(valid, i, group, checked, threshold, known);
    if known(f2.artworkId) then
      var member := DuplicateEntry(f2.artworkId, Some(Distance(f1.phash, f2.phash)));
      assert DistinctRecordIds(valid) ==> f1.artworkId != f2.artworkId;
      MemberState(valid, i, j, anchored, checked1, checked, threshold, known);
      ExtendsTrans(group, anchored, anchored + [member], checked, checked);
      (anchored + [member], checked1 + {f2.artworkId})
    else (anchored, checked1)
  }

  /** Adding the anchor to an empty group keeps the group state and adds only an unchecked artwork. */
  lemma AnchorState(valid: seq<FeatureRecord>, i: nat, group: seq<DuplicateEntry>, checked: set<ArtworkId>,
                    threshold: int, known: ArtworkId -> bool)
    requires i < |valid| && GroupState(valid, i, group, checked, threshold, known)
    ensures var add := |group| == 0 && known(valid[i].artworkId);
            var anchored := if add then [DuplicateEntry(valid[i].artworkId, None)] else group;
            var checked1 := if add then checked + {valid[i].artworkId} else checked;
            GroupState(valid, i, anchored, checked1, threshold, known) && ExtendsWithNew(group, anchored, checked)
  {
  }

  /** Appending a known, unchecked artwork within the threshold keeps the group state. */
  lemma MemberState(valid: seq<FeatureRecord>, i: nat, j: nat, group: seq<DuplicateEntry>, checked: set<ArtworkId>,
                    base: set<ArtworkId>, threshold: int, known: ArtworkId -> bool)
    requires i < j < |valid|
    requires GroupState(valid, i, group, checked, threshold, known)
    requires known(valid[j].artworkId) && valid[j].artworkId !in base
    requires known(valid[i].artworkId) ==> |group| > 0
    requires DistinctRecordIds(valid) ==> valid[j].artworkId !in checked
    requires Distance(valid[i].phash, valid[j].phash) <= threshold
    ensures var grown := group + [DuplicateEntry(valid[j].artworkId, Some(Distance(valid[i].phash, valid[j].phash)))];
            GroupState(valid, i, grown, checked + {valid[j].artworkId}, threshold, known)
            && ExtendsWithNew(group, grown, base)
  {
    var member := DuplicateEntry(valid[j].artworkId, Some(Distance(valid[i].phash, valid[j].phash)));
    var grown := group + [member];
    assert MemberOf(valid, i, member, threshold);
    assert forall k :: 0 <= k < |group| ==> grown[k] == group[k];
    assert grown[..|group|] == group;
    if DistinctRecordIds(valid) {
      DistinctSnoc(group, member);
    }
  }

  lemma DistinctSnoc(group: seq<DuplicateEntry>, e: DuplicateEntry)
    requires DistinctBy(group, EntryIdOf)
    requires forall k :: 0 <= k < |group| ==> group[k].artworkId != e.artworkId
    ensures DistinctBy(group + [e], EntryIdOf)
  {
    var grown := group + [e];
    assert forall k :: 0 <= k < |group| ==> grown[k] == group[k];
  }

  /** The inner loop of `find_duplicates` for the anchor `valid[i]`, from `valid[j]` on. */
  function GrowGroup(valid: seq<FeatureRecord>, i: nat, j: nat, group: seq<DuplicateEntry>, checked: set<ArtworkId>,
                     threshold: int, known: ArtworkId -> bool): (r: (seq<DuplicateEntry>, set<ArtworkId>))
    requires i < j <= |valid|
    requires GroupState(valid, i, group, checked, threshold, known)
    ensures GroupState(valid, i, r.0, r.1, threshold, known)
    ensures checked <= r.1 && ExtendsWithNew(group, r.0, checked)
    ensures ChecksOnlyMatches(valid, i, j, checked, r.1, threshold)
    ensures DistinctRecordIds(valid) ==>
              forall m :: j <= m < |valid| && valid[m].artworkId !in checked && known(valid[m].artworkId)
                          && Distance(valid[i].phash, valid[m].phash) <= threshold
                ==> DuplicateEntry(valid[m].artworkId, Some(Distance(valid[i].phash, valid[m].phash))) in r.0
    decreases |valid| - j
  {
    if j == |valid| then (group, checked)
    else if valid[j].artworkId in checked then GrowGroup(valid, i, j + 1, group, checked, threshold, known)
    else if Distance(valid[i].phash, valid[j].phash) <= threshold then
      var step := AddMatch(valid, i, j, group, checked, threshold, known);
      var r := GrowGroup(valid, i, j + 1, step.0, step.1, threshold, known);
      ExtendsTrans(group, step.0, r.0, checked, step.1);
      GrowStep(valid, i, j, checked, step, r, threshold, known);
      r
    else GrowGroup(valid, i, j + 1, group, checked, threshold, known)
  }

  /**
    Every artwork the inner loop for `valid[i]` checks from `valid[j]` on is the anchor's
    or that of a record from `valid[j]` on within the threshold of the anchor.
   */
  ghost predicate ChecksOnlyMatches(valid: seq<FeatureRecord>, i: nat, j: nat, checked: set<ArtworkId>,
                                    after: set<ArtworkId>, threshold: int)
    requires i < |valid|
  {
    forall id :: id in after && id !in checked ==>
      id == valid[i].artworkId ||
      exists l :: j <= l < |valid| && valid[l].artworkId == id && Distance(valid[i].phash, valid[l].phash) <= threshold
  }

  /** The matching step of `GrowGroup` followed by the rest of the loop checks only matches and loses no match. */
  lemma GrowStep(valid: seq<FeatureRecord>, i: nat, j: nat, checked: set<ArtworkId>,
                 step: (seq<DuplicateEntry>, set<ArtworkId>), r: (seq<DuplicateEntry>, set<ArtworkId>),
                 threshold: int, known: ArtworkId -> bool)
    requires i < j < |valid| && Distance(valid[i].phash, valid[j].phash) <= threshold
    requires checked <= step.1 && step.1 <= checked + {valid[i].artworkId, valid[j].artworkId}
    requires known(valid[j].artworkId) ==> |step.0| > 0 && step.0[|step.0| - 1] == DuplicateEntry(valid[j].artworkId, Some(Distance(valid[i].phash, valid[j].phash)))
    requires ExtendsWithNew(step.0, r.0, step.1)
    requires ChecksOnlyMatches(valid, i, j + 1, step.1, r.1, threshold)
    requires DistinctRecordIds(valid) ==>
               forall m :: j + 1 <= m < |valid| && valid[m].artworkId !in step.1 && known(valid[m].artworkId)
                           && Distance(valid[i].phash, valid[m].phash) <= threshold
                 ==> DuplicateEntry(valid[m].artworkId, Some(Distance(valid[i].phash, valid[m].phash))) in r.0
    ensures ChecksOnlyMatches(valid, i, j, checked, r.1, threshold)
    ensures DistinctRecordIds(valid) ==>
              forall m :: j <= m < |valid| && valid[m].artworkId !in checked && known(valid[m].artworkId)
                          && Distance(valid[i].phash, valid[m].phash) <= threshold
                ==> DuplicateEntry(valid[m].artworkId, Some(Distance(valid[i].phash, valid[m].phash))) in r.0
  {
    forall id | id in r.1 && id !in checked
      ensures id == valid[i].artworkId ||
              exists l :: j <= l < |valid| && valid[l].artworkId == id && Distance(valid[i].phash, valid[l].phash) <= threshold
    {
      if id in step.1 && id != valid[i].artworkId {
        assert valid[j].artworkId == id;
      }
    }
    if DistinctRecordIds(valid) {
      forall m | j <= m < |valid| && valid[m].artworkId !in checked && known(valid[m].artworkId)
                 && Distance(valid[i].phash, valid[m].phash) <= threshold
        ensures DuplicateEntry(valid[m].artworkId, Some(Distance(valid[i].phash, valid[m].phash))) in r.0
      {
        if m == j {
          var n := |step.0| - 1;
          assert r.0[..|step.0|] == step.0;
          assert r.0[n] == step.0[n];
        } else {
          assert valid[m].artworkId != valid[i].artworkId && valid[m].artworkId != valid[j].artworkId;
        }
      }
    }
  }

  lemma ExtendsTrans(a: seq<DuplicateEntry>, b: seq<DuplicateEntry>, c: seq<DuplicateEntry>,
                     checked: set<ArtworkId>, later: set<ArtworkId>)
    requires checked <= later
    requires ExtendsWithNew(a, b, checked) && ExtendsWithNew(b, c, later)
    ensures ExtendsWithNew(a, c, checked)
  {
    assert c[..|a|] == c[..|b|][..|a|];
    forall k | |a| <= k < |c| ensures c[k].artworkId !in checked {
      if k < |b| {
        assert c[k] == b[k];
      }
    }
  }

  /**
    What the outer loop of `find_duplicates` has produced from `valid[from]` on: groups
    of at least two, each anchored to an earlier record than the next, none containing
    an artwork checked before `from`, and no artwork in two groups.
   */
  predicate ScanInvariant(valid: seq<FeatureRecord>, from: nat, groups: seq<AnchoredGroup>, checked: set<ArtworkId>,
                          threshold: int, known: ArtworkId -> bool)
  {
    && GroupsShaped(valid, from, groups, threshold, known)
    && GroupsFresh(groups, checked)
    && (DistinctRecordIds(valid) ==> forall a :: 0 <= a < |groups| ==> DistinctBy(groups[a].entries, EntryIdOf))
    && GroupsDisjoint(groups)
  }

  predicate GroupsShaped(valid: seq<FeatureRecord>, from: nat, groups: seq<AnchoredGroup>, threshold: int,
                         known: ArtworkId -> bool)
  {
    && (forall a :: 0 <= a < |groups| ==>
          && from <= groups[a].anchor < |valid|
          && |groups[a].entries| >= 2
          && EntriesAnchored(valid, groups[a].anchor, groups[a].entries, threshold, known))
    && (forall a, b :: 0 <= a < b < |groups| ==> groups[a].anchor < groups[b].anchor)
  }

  predicate GroupsFresh(groups: seq<AnchoredGroup>, checked: set<ArtworkId>) {
    forall a, k :: 0 <= a < |groups| && 0 <= k < |groups[a].entries| ==> groups[a].entries[k].artworkId !in checked
  }

  predicate GroupsDisjoint(groups: seq<AnchoredGroup>) {
    forall a, b, k, l :: 0 <= a < b < |groups| && 0 <= k < |groups[a].entries| && 0 <= l < |groups[b].entries|
      ==> groups[a].entries[k].artworkId != groups[b].entries[l].artworkId
  }

  /** The outer loop of `find_duplicates` from `valid[i]` on. */
  function ScanGroups(valid: seq<FeatureRecord>, i: nat, checked: set<ArtworkId>, threshold: int,
                      known: ArtworkId -> bool): (r: seq<AnchoredGroup>)
    requires i <= |valid|
    ensures ScanInvariant(valid, i, r, checked, threshold, known)
    decreases |valid| - i
  {
    if i == |valid| then []
    else if valid[i].artworkId in checked then ScanGroups(valid, i + 1, checked, threshold, known)
    else
      EmptyGroupState(valid, i, checked, threshold, known);
      var grown := GrowGroup(valid, i, i + 1, [], checked, threshold, known);
      var rest := ScanGroups(valid, i + 1, grown.1, threshold, known);
      if |grown.0| > 1 then
        ConsGroup(valid, i, grown.0, grown.1, rest, checked, threshold, known);
        [AnchoredGroup(i, grown.0)] + rest
      else rest
  }

  /**
    With one record per artwork, when the outer loop reaches a known anchor not yet
    checked, the first group it reports is the anchor's, headed by it, and holds every
    later known, unchecked record within the threshold at its distance.
   */
  lemma ScanHeadsGroup(valid: seq<FeatureRecord>, i: nat, checked: set<ArtworkId>, threshold: int,
                       known: ArtworkId -> bool, m: nat)
    requires DistinctRecordIds(valid) && i < m < |valid|
    requires valid[i].artworkId !in checked && known(valid[i].artworkId)
    requires valid[m].artworkId !in checked && known(valid[m].artworkId)
    requires Distance(valid[i].phash, valid[m].phash) <= threshold
    ensures var r := ScanGroups(valid, i, checked, threshold, known);
            && |r| > 0 && r[0].anchor == i
            && r[0].entries[0] == DuplicateEntry(valid[i].artworkId, None)
            && DuplicateEntry(valid[m].artworkId, Some(Distance(valid[i].phash, valid[m].phash))) in r[0].entries
  {
    EmptyGroupState(valid, i, checked, threshold, known);
    var grown := GrowGroup(valid, i, i + 1, [], checked, threshold, known);
    var e := DuplicateEntry(valid[m].artworkId, Some(Distance(valid[i].phash, valid[m].phash)));
    assert e in grown.0;
    AnchorHeadsGroup(valid, i, grown.0, grown.1, threshold, known);
  }

  /** An anchor not yet checked starts an empty group in a valid state. */
  lemma EmptyGroupState(valid: seq<FeatureRecord>, i: nat, checked: set<ArtworkId>, threshold: int,
                        known: ArtworkId -> bool)
    requires i < |valid| && valid[i].artworkId !in checked
    ensures GroupState(valid, i, [], checked, threshold, known)
  {
  }

  /** A grown group holding a member and headed by a known anchor has at least two entries. */
  lemma AnchorHeadsGroup(valid: seq<FeatureRecord>, i: nat, g: seq<DuplicateEntry>, after: set<ArtworkId>,
                         threshold: int, known: ArtworkId -> bool)
    requires i < |valid| && GroupState(valid, i, g, after, threshold, known)
    ensures known(valid[i].artworkId) && (exists e :: e in g && e.distance.Some?) ==>
              |g| > 1 && g[0] == DuplicateEntry(valid[i].artworkId, None)
  {
    if known(valid[i].artworkId) && exists e :: e in g && e.distance.Some? {
      var e :| e in g && e.distance.Some?;
      assert e != g[0];
    }
  }

  lemma ConsGroup(valid: seq<FeatureRecord>, i: nat, g: seq<DuplicateEntry>, after: set<ArtworkId>,
                  rest: seq<AnchoredGroup>, checked: set<ArtworkId>, threshold: int, known: ArtworkId -> bool)
    requires i < |valid| && |g| >= 2
    requires GroupState(valid, i, g, after, threshold, known)
    requires checked <= after && ExtendsWithNew([], g, checked)
    requires ScanInvariant(valid, i + 1, rest, after, threshold, known)
    ensures ScanInvariant(valid, i, [AnchoredGroup(i, g)] + rest, checked, threshold, known)
  {
    var r := [AnchoredGroup(i, g)] + rest;
    ConsShaped(valid, i, g, rest, threshold, known);
    ConsFresh(g, i, rest, checked, after);
    ConsDisjoint(g, i, rest, after);
    assert forall a :: 0 < a < |r| ==> r[a] == rest[a - 1];
  }

  lemma ConsShaped(valid: seq<FeatureRecord>, i: nat, g: seq<DuplicateEntry>, rest: seq<AnchoredGroup>,
                   threshold: int, known: ArtworkId -> bool)
    requires i < |valid| && |g| >= 2
    requires EntriesAnchored(valid, i, g, threshold, known)
    requires GroupsShaped(valid, i + 1, rest, threshold, known)
    ensures GroupsShaped(valid, i, [AnchoredGroup(i, g)] + rest, threshold, known)
  {
    var r := [AnchoredGroup(i, g)] + rest;
    assert forall a :: 0 < a < |r| ==> r[a] == rest[a - 1];
  }

  lemma ConsFresh(g: seq<DuplicateEntry>, i: nat, rest: seq<AnchoredGroup>, checked: set<ArtworkId>, after: set<ArtworkId>)
    requires checked <= after && ExtendsWithNew([], g, checked) && GroupsFresh(rest, after)
    ensures GroupsFresh([AnchoredGroup(i, g)] + rest, checked)
  {
    var r := [AnchoredGroup(i, g)] + rest;
    assert forall a :: 0 < a < |r| ==> r[a] == rest[a - 1];
  }

  lemma ConsDisjoint(g: seq<DuplicateEntry>, i: nat, rest: seq<AnchoredGroup>, after: set<ArtworkId>)
    requires IdsIn(g, after) && GroupsFresh(rest, after) && GroupsDisjoint(rest)
    ensures GroupsDisjoint([AnchoredGroup(i, g)] + rest)
  {
    var r := [AnchoredGroup(i, g)] + rest;
    assert forall a :: 0 < a < |r| ==> r[a] == rest[a - 1];
    forall a, b, k, l | 0 <= a < b < |r| && 0 <= k < |r[a].entries| && 0 <= l < |r[b].entries|
      ensures r[a].entries[k].artworkId != r[b].entries[l].artworkId
    {
      if a == 0 {
        assert r[a].entries[k].artworkId in after;
        assert r[b].entries[l].artworkId !in after;
      }
    }
  }

  /** The valid records, the anchored groups `find_duplicates` reports, in scan order. */
  function DuplicateScan(store: seq<FeatureRecord>, threshold: int, known: ArtworkId -> bool): (r: seq<AnchoredGroup>)
    ensures ScanInvariant(WithHash(Scanned(store)), 0, r, {}, threshold, known)
  {
    ScanGroups(WithHash(Scanned(store)), 0, {}, threshold, known)
  }

  /**
    The artworks checked when the outer loop of `find_duplicates` reaches `valid[n]`:
    the anchors and members of every group grown before it.
   */
  function CheckedBefore(valid: seq<FeatureRecord>, n: nat, threshold: int, known: ArtworkId -> bool): set<ArtworkId>
    requires n <= |valid|
  {
    CheckedFrom(valid, 0, {}, n, threshold, known)
  }

  /** The artworks checked when the outer loop, started at `valid[s]` with `checked`, reaches `valid[n]`. */
  function CheckedFrom(valid: seq<FeatureRecord>, s: nat, checked: set<ArtworkId>, n: nat, threshold: int,
                       known: ArtworkId -> bool): set<ArtworkId>
    requires s <= n <= |valid|
    decreases n - s
  {
    if s == n then checked
    else CheckedFrom(valid, s + 1, AfterAnchor(valid, s, checked, threshold, known), n, threshold, known)
  }

  /**
    One turn of the outer loop of `find_duplicates` at `valid[k]`: a checked anchor is
    skipped; otherwise its group is grown, which checks only the anchor and later matches.
   */
  function AfterAnchor(valid: seq<FeatureRecord>, k: nat, checked: set<ArtworkId>, threshold: int,
                       known: ArtworkId -> bool): (r: set<ArtworkId>)
    requires k < |valid|
    ensures checked <= r
    ensures forall id :: id in r && id !in checked ==> CheckedBy(valid, k, id, threshold)
  {
    if valid[k].artworkId in checked then checked
    else
      EmptyGroupState(valid, k, checked, threshold, known);
      var grown := GrowGroup(valid, k, k + 1, [], checked, threshold, known);
      grown.1
  }

  /** The artwork `id` can be checked by the group anchored at `valid[k]`: it is the anchor's, or a later match's. */
  ghost predicate CheckedBy(valid: seq<FeatureRecord>, k: nat, id: ArtworkId, threshold: int)
    requires k < |valid|
  {
    valid[k].artworkId == id ||
    exists x :: k < x < |valid| && valid[x].artworkId == id && Distance(valid[k].phash, valid[x].phash) <= threshold
  }

  /**
    Every artwork checked when the outer loop, started at `valid[s]`, reaches `valid[n]`
    was checked at the start or by the group of an anchor in between.
   */
  lemma {:induction false} CheckedFromBy(valid: seq<FeatureRecord>, s: nat, checked: set<ArtworkId>, n: nat,
                                         threshold: int, known: ArtworkId -> bool)
    requires s <= n <= |valid|
    ensures forall id :: id in CheckedFrom(valid, s, checked, n, threshold, known) ==>
              id in checked || exists k :: s <= k < n && CheckedBy(valid, k, id, threshold)
    decreases n - s
  {
    if s < n {
      var after := AfterAnchor(valid, s, checked, threshold, known);
      CheckedFromBy(valid, s + 1, after, n, threshold, known);
      forall id | id in CheckedFrom(valid, s, checked, n, threshold, known)
        ensures id in checked || exists k :: s <= k < n && CheckedBy(valid, k, id, threshold)
      {
        if id in after && id !in checked {
          assert CheckedBy(valid, s, id, threshold);
        }
      }
    }
  }

  /** Every group of `part` is one of `whole`. */
  predicate AmongGroups(part: seq<AnchoredGroup>, whole: seq<AnchoredGroup>) {
    forall g :: g in part ==> g in whole
  }

  /** The groups the outer loop reports after its turn at `valid[k]` are among those it reports from `valid[k]` on. */
  lemma ScanStep(valid: seq<FeatureRecord>, k: nat, c: set<ArtworkId>, threshold: int, known: ArtworkId -> bool)
    requires k < |valid|
    ensures AmongGroups(ScanGroups(valid, k + 1, AfterAnchor(valid, k, c, threshold, known), threshold, known),
                        ScanGroups(valid, k, c, threshold, known))
  {
    var tail := ScanGroups(valid, k + 1, AfterAnchor(valid, k, c, threshold, known), threshold, known);
    var whole := ScanGroups(valid, k, c, threshold, known);
    if valid[k].artworkId !in c {
      EmptyGroupState(valid, k, c, threshold, known);
      var grown := GrowGroup(valid, k, k + 1, [], c, threshold, known);
      assert tail == ScanGroups(valid, k + 1, grown.1, threshold, known);
      assert whole == (if |grown.0| > 1 then [AnchoredGroup(k, grown.0)] + tail else tail);
    }
  }

  /** `g` is the group anchored at `valid[i]`, headed by it and holding `valid[m]` at its distance. */
  predicate FoundGroup(valid: seq<FeatureRecord>, g: AnchoredGroup, i: nat, m: nat)
    requires i < |valid| && m < |valid|
  {
    && g.anchor == i && |g.entries| > 0
    && g.entries[0] == DuplicateEntry(valid[i].artworkId, None)
    && DuplicateEntry(valid[m].artworkId, Some(Distance(valid[i].phash, valid[m].phash))) in g.entries
  }

  /**
    The outer loop started at `valid[s]` reports the group of a known anchor `valid[i]`,
    holding a later known record `valid[m]` within the threshold, when neither artwork is
    checked by the time the loop reaches `valid[i]`.
   */
  lemma {:induction false} ScanFinds(valid: seq<FeatureRecord>, s: nat, checked: set<ArtworkId>, i: nat, m: nat,
                                     threshold: int, known: ArtworkId -> bool) returns (g: AnchoredGroup)
    requires UniqueIds(valid) && s <= i < m < |valid|
    requires PairUnchecked(valid, s, checked, i, m, threshold, known)
    ensures g in ScanGroups(valid, s, checked, threshold, known) && FoundGroup(valid, g, i, m)
    decreases i - s
  {
    if s == i {
      g := HeadFound(valid, i, checked, m, threshold, known);
    } else {
      var after := NextTurn(valid, s, checked, i, m, threshold, known);
      g := ScanFinds(valid, s + 1, after, i, m, threshold, known);
    }
  }

  /**
    One turn of the outer loop at `valid[s]`: the pair stays unchecked in the set it leaves,
    and the groups reported from the next turn on are among those reported from this one on.
   */
  lemma NextTurn(valid: seq<FeatureRecord>, s: nat, checked: set<ArtworkId>, i: nat, m: nat,
                 threshold: int, known: ArtworkId -> bool) returns (after: set<ArtworkId>)
    requires s < i < m < |valid| && PairUnchecked(valid, s, checked, i, m, threshold, known)
    ensures PairUnchecked(valid, s + 1, after, i, m, threshold, known)
    ensures AmongGroups(ScanGroups(valid, s + 1, after, threshold, known), ScanGroups(valid, s, checked, threshold, known))
  {
    after := AfterAnchor(valid, s, checked, threshold, known);
    assert CheckedFrom(valid, s, checked, i, threshold, known) == CheckedFrom(valid, s + 1, after, i, threshold, known);
    ScanStep(valid, s, checked, threshold, known);
  }

  /**
    Both `valid[i]` and `valid[m]` are known, within the threshold of each other, and
    unchecked when the outer loop, started at `valid[s]` with `checked`, reaches `valid[i]`.
   */
  ghost predicate PairUnchecked(valid: seq<FeatureRecord>, s: nat, checked: set<ArtworkId>, i: nat, m: nat,
                                threshold: int, known: ArtworkId -> bool)
    requires s <= i < m < |valid|
  {
    var c := CheckedFrom(valid, s, checked, i, threshold, known);
    && valid[i].artworkId !in c && known(valid[i].artworkId)
    && valid[m].artworkId !in c && known(valid[m].artworkId)
    && Distance(valid[i].phash, valid[m].phash) <= threshold
  }

  function IdAt(valid: seq<FeatureRecord>, k: nat): ArtworkId
    requires k < |valid|
  {
    valid[k].artworkId
  }

  /**
    `DistinctRecordIds` stated through `IdAt`, so that the walk over the outer loop carries
    it without instantiating it at every record it mentions.
   */
  ghost predicate UniqueIds(valid: seq<FeatureRecord>) {
    forall a, b :: 0 <= a < b < |valid| ==> IdAt(valid, a) != IdAt(valid, b)
  }

  lemma UniqueIdsDistinct(valid: seq<FeatureRecord>)
    ensures UniqueIds(valid) <==> DistinctRecordIds(valid)
  {
    assert forall a :: 0 <= a < |valid| ==> IdAt(valid, a) == valid[a].artworkId;
  }

  /** When the outer loop reaches `valid[i]` itself, the group it reports there is found. */
  lemma HeadFound(valid: seq<FeatureRecord>, i: nat, checked: set<ArtworkId>, m: nat,
                  threshold: int, known: ArtworkId -> bool) returns (g: AnchoredGroup)
    requires UniqueIds(valid) && i < m < |valid| && PairUnchecked(valid, i, checked, i, m, threshold, known)
    ensures g in ScanGroups(valid, i, checked, threshold, known) && FoundGroup(valid, g, i, m)
  {
    UniqueIdsDistinct(valid);
    var groups := ScanGroups(valid, i, checked, threshold, known);
    ScanHeadsGroup(valid, i, checked, threshold, known, m);
    g := groups[0];
  }

  /**
    Completeness of `find_duplicates`: with one record per artwork, when the outer loop
    reaches a known anchor `valid[i]` not yet checked, every later known record not yet
    checked and within the threshold is reported in the group anchored at `valid[i]`,
    which the anchor heads.
   */
  lemma DuplicatesComplete(store: seq<FeatureRecord>, threshold: int, known: ArtworkId -> bool, i: nat, m: nat)
    requires DistinctRecordIds(store)
    requires i < m < |WithHash(Scanned(store))|
    requires var valid := WithHash(Scanned(store));
             var c := CheckedBefore(valid, i, threshold, known);
             && valid[i].artworkId !in c && known(valid[i].artworkId)
             && valid[m].artworkId !in c && known(valid[m].artworkId)
             && Distance(valid[i].phash, valid[m].phash) <= threshold
    ensures var valid := WithHash(Scanned(store));
            var r := FindDuplicates(store, threshold, known);
            exists a :: 0 <= a < |r| && DuplicateScan(store, threshold, known)[a].anchor == i
                        && r[a].artworks[0] == DuplicateEntry(valid[i].artworkId, None)
                        && DuplicateEntry(valid[m].artworkId, Some(Distance(valid[i].phash, valid[m].phash))) in r[a].artworks
  {
    var valid := WithHash(Scanned(store));
    ValidDistinct(store);
    UniqueIdsDistinct(valid);
    assert PairUnchecked(valid, 0, {}, i, m, threshold, known);
    var g := ScanFinds(valid, 0, {}, i, m, threshold, known);
    ReportedFound(store, threshold, known, g, i, m);
  }

  /** A found group of the scan is a reported group, at the same position as its anchored form. */
  lemma ReportedFound(store: seq<FeatureRecord>, threshold: int, known: ArtworkId -> bool, g: AnchoredGroup, i: nat, m: nat)
    requires i < |WithHash(Scanned(store))| && m < |WithHash(Scanned(store))|
    requires g in DuplicateScan(store, threshold, known) && FoundGroup(WithHash(Scanned(store)), g, i, m)
    ensures var valid := WithHash(Scanned(store));
            var r := FindDuplicates(store, threshold, known);
            exists a :: 0 <= a < |r| && DuplicateScan(store, threshold, known)[a].anchor == i
                        && r[a].artworks[0] == DuplicateEntry(valid[i].artworkId, None)
                        && DuplicateEntry(valid[m].artworkId, Some(Distance(valid[i].phash, valid[m].phash))) in r[a].artworks
  {
    var groups := DuplicateScan(store, threshold, known);
    var a :| 0 <= a < |groups| && groups[a] == g;
    assert FindDuplicates(store, threshold, known)[a].artworks == groups[a].entries;
  }

  /**
    The same in terms of the records alone: with one record per artwork, two known
    records within the threshold of each other, neither within the threshold of any
    earlier record, are reported together in the group the earlier one heads.
   */
  lemma DuplicatesReported(store: seq<FeatureRecord>, threshold: int, known: ArtworkId -> bool, i: nat, m: nat)
    requires DistinctRecordIds(store)
    requires i < m < |WithHash(Scanned(store))|
    requires var valid := WithHash(Scanned(store));
             && known(valid[i].artworkId) && known(valid[m].artworkId)
             && Distance(valid[i].phash, valid[m].phash) <= threshold
             && (forall k :: 0 <= k < i ==>
                   Distance(valid[k].phash, valid[i].phash) > threshold && Distance(valid[k].phash, valid[m].phash) > threshold)
    ensures var valid := WithHash(Scanned(store));
            var r := FindDuplicates(store, threshold, known);
            exists a :: 0 <= a < |r| && DuplicateScan(store, threshold, known)[a].anchor == i
                        && r[a].artworks[0] == DuplicateEntry(valid[i].artworkId, None)
                        && DuplicateEntry(valid[m].artworkId, Some(Distance(valid[i].phash, valid[m].phash))) in r[a].artworks
  {
    var valid := WithHash(Scanned(store));
    ValidDistinct(store);
    var g := PairReported(valid, threshold, known, i, m);
    ReportedFound(store, threshold, known, g, i, m);
  }

  /**
    Over the valid records: with one record per artwork, two known records within the
    threshold of each other, neither within the threshold of any earlier record, are
    reported together in a group the earlier one heads.
   */
  lemma PairReported(valid: seq<FeatureRecord>, threshold: int, known: ArtworkId -> bool, i: nat, m: nat)
    returns (g: AnchoredGroup)
    requires DistinctRecordIds(valid) && i < m < |valid|
    requires known(valid[i].artworkId) && known(valid[m].artworkId)
    requires Distance(valid[i].phash, valid[m].phash) <= threshold
    requires forall k :: 0 <= k < i ==>
               Distance(valid[k].phash, valid[i].phash) > threshold && Distance(valid[k].phash, valid[m].phash) > threshold
    ensures g in ScanGroups(valid, 0, {}, threshold, known) && FoundGroup(valid, g, i, m)
  {
    UncheckedRecord(valid, i, i, threshold, known);
    UncheckedRecord(valid, i, m, threshold, known);
    UniqueIdsDistinct(valid);
    assert PairUnchecked(valid, 0, {}, i, m, threshold, known);
    g := ScanFinds(valid, 0, {}, i, m, threshold, known);
  }

  /** A record no earlier record is within the threshold of is unchecked when the outer loop reaches `valid[n]`. */
  lemma UncheckedRecord(valid: seq<FeatureRecord>, n: nat, x: nat, threshold: int, known: ArtworkId -> bool)
    requires DistinctRecordIds(valid) && n <= x < |valid|
    requires forall k :: 0 <= k < n ==> Distance(valid[k].phash, valid[x].phash) > threshold
    ensures valid[x].artworkId !in CheckedBefore(valid, n, threshold, known)
  {
    CheckedFromBy(valid, 0, {}, n, threshold, known);
    NotCheckedBy(valid, n, x, CheckedBefore(valid, n, threshold, known), threshold);
  }

  lemma NotCheckedBy(valid: seq<FeatureRecord>, n: nat, x: nat, c: set<ArtworkId>, threshold: int)
    requires DistinctRecordIds(valid) && n <= x < |valid|
    requires forall k :: 0 <= k < n ==> Distance(valid[k].phash, valid[x].phash) > threshold
    requires forall id :: id in c ==> exists k :: 0 <= k < n && CheckedBy(valid, k, id, threshold)
    ensures valid[x].artworkId !in c
  {
    forall k | 0 <= k < n ensures !CheckedBy(valid, k, valid[x].artworkId, threshold) {
      forall y | k < y < |valid| && valid[y].artworkId == valid[x].artworkId
        ensures Distance(valid[k].phash, valid[y].phash) > threshold
      {
        assert y == x;
      }
    }
  }

  /** `find_duplicates`. */
  function FindDuplicates(store: seq<FeatureRecord>, threshold: int, known: ArtworkId -> bool): (r: seq<DuplicateGroup>)
    ensures |r| == |DuplicateScan(store, threshold, known)|
    ensures forall a :: 0 <= a < |r| ==> r[a].artworks == DuplicateScan(store, threshold, known)[a].entries
    ensures forall a :: 0 <= a < |r| ==> r[a].groupSize == |r[a].artworks| && r[a].groupSize >= 2
    ensures forall a, k :: 0 <= a < |r| && 0 <= k < |r[a].artworks| ==> known(r[a].artworks[k].artworkId)
    ensures forall a, b, k, l :: 0 <= a < b < |r| && 0 <= k < |r[a].artworks| && 0 <= l < |r[b].artworks|
              ==> r[a].artworks[k].artworkId != r[b].artworks[l].artworkId
  {
    var groups := DuplicateScan(store, threshold, known);
    ReportedGroups(WithHash(Scanned(store)), groups, threshold, known);
    Report(groups)
  }

  /** The group dictionaries `find_duplicates` builds from the anchored groups. */
  function Report(groups: seq<AnchoredGroup>): seq<DuplicateGroup> {
    seq(|groups|, a requires 0 <= a < |groups| => DuplicateGroup(|groups[a].entries|, groups[a].entries))
  }

  lemma ReportedGroups(valid: seq<FeatureRecord>, groups: seq<AnchoredGroup>, threshold: int, known: ArtworkId -> bool)
    requires ScanInvariant(valid, 0, groups, {}, threshold, known)
    ensures var r := Report(groups);
            && |r| == |groups|
            && (forall a :: 0 <= a < |r| ==> r[a].artworks == groups[a].entries)
            && (forall a :: 0 <= a < |r| ==> r[a].groupSize == |r[a].artworks| && r[a].groupSize >= 2)
            && (forall a, k :: 0 <= a < |r| && 0 <= k < |r[a].artworks| ==> known(r[a].artworks[k].artworkId))
            && (forall a, b, k, l :: 0 <= a < b < |r| && 0 <= k < |r[a].artworks| && 0 <= l < |r[b].artworks|
                  ==> r[a].artworks[k].artworkId != r[b].artworks[l].artworkId)
  {
    var r := Report(groups);
    assert forall a :: 0 <= a < |r| ==> r[a].artworks == groups[a].entries;
    forall a, k | 0 <= a < |r| && 0 <= k < |r[a].artworks| ensures known(r[a].artworks[k].artworkId) {
      assert EntriesAnchored(valid, groups[a].anchor, groups[a].entries, threshold, known);
    }
  }

  /** With one record per artwork in the store, the scanned records with a hash name distinct artworks. */
  lemma ValidDistinct(store: seq<FeatureRecord>)
    requires DistinctRecordIds(store)
    ensures DistinctRecordIds(WithHash(Scanned(store)))
  {
    var scan := Scanned(store);
    assert forall x :: 0 <= x < |scan| ==> scan[x] == store[x];
    assert DistinctRecordIds(scan);
    WithHashDistinct(scan);
  }

  lemma WithHashDistinct(records: seq<FeatureRecord>)
    requires DistinctRecordIds(records)
    ensures DistinctRecordIds(WithHash(records))
  {
    FilterDistinct(records, HasHash);
  }

  /** Filtering records with distinct artworks keeps them distinct. */
  lemma {:induction false} FilterDistinct(records: seq<FeatureRecord>, keep: FeatureRecord -> bool)
    requires DistinctRecordIds(records)
    ensures DistinctRecordIds(Filter(records, keep))
  {
    if |records| > 0 {
      var tail := records[1..];
      assert DistinctRecordIds(tail);
      FilterDistinct(tail, keep);
      var rest := Filter(tail, keep);
      forall k | 0 <= k < |rest| ensures rest[k].artworkId != records[0].artworkId {
        var j :| 0 <= j < |tail| && tail[j] == rest[k];
        assert tail[j] == records[j + 1];
      }
      if keep(records[0]) {
        DistinctCons(records[0], rest);
      }
    }
  }

  lemma DistinctCons(f: FeatureRecord, rest: seq<FeatureRecord>)
    requires DistinctRecordIds(rest)
    requires forall k :: 0 <= k < |rest| ==> rest[k].artworkId != f.artworkId
    ensures DistinctRecordIds([f] + rest)
  {
    var r := [f] + rest;
    assert forall x :: 0 < x < |r| ==> r[x] == rest[x - 1];
  }

  /**
    Every artwork in a duplicate group is a scanned record with a hash: the group's
    anchor record, or a later record within the threshold of the anchor, at the
    distance the entry reports; with one record per artwork no group names an artwork twice.
   */
  lemma DuplicateGroupsAnchored(store: seq<FeatureRecord>, threshold: int, known: ArtworkId -> bool, a: nat, k: nat)
    requires a < |FindDuplicates(store, threshold, known)|
    requires k < |FindDuplicates(store, threshold, known)[a].artworks|
    ensures var valid := WithHash(Scanned(store));
            var anchor := DuplicateScan(store, threshold, known)[a].anchor;
            var e := FindDuplicates(store, threshold, known)[a].artworks[k];
            && anchor < |valid|
            && valid[anchor] in Scanned(store) && |valid[anchor].phash| > 0
            && (e.distance.None? ==> k == 0 && e.artworkId == valid[anchor].artworkId)
            && (e.distance.Some? ==> MemberOf(valid, anchor, e, threshold))
    ensures DistinctRecordIds(store) ==> DistinctBy(FindDuplicates(store, threshold, known)[a].artworks, EntryIdOf)
  {
    var valid := WithHash(Scanned(store));
    var g := DuplicateScan(store, threshold, known)[a];
    assert EntriesAnchored(valid, g.anchor, g.entries, threshold, known);
    if DistinctRecordIds(store) {
      ValidDistinct(store);
    }
  }
}
