# Polish looted-art tracker: a verified model of its scoring and helper core

This project models, in Dafny, the deterministic core of a system that keeps a
register of artworks looted from Poland and searches the web for them. The
central piece is a similarity and relevance scoring engine, surrounded by small
pure helpers:

- **Perceptual-hash similarity** (`Hamming`, `PerceptualHasher`,
  `SimilarityService`, `StableSort`). This covers the Hamming distance between
  hex-digit hashes, including its sentinel for missing or mismatched hashes. It
  also covers the thresholded, sorted and truncated scans of the feature store
  by hash and by embedding, the hybrid merge keyed by artwork id, and the
  anchor-based duplicate grouping. Python's stable `sort` is a stable insertion
  sort, proved to be a permutation, ordered and stable.
- **Web-match interest scoring** (`VisionEntities`, `VisionTracking`,
  `VisionRepository`). This covers domain categorisation by ordered substring
  tables, the suspicious-domain test and the per-match interest score. It also
  covers the "interesting" threshold of 15, the gated persistence of matches and
  entities, the per-domain statistics update, and the repository's upsert,
  lookup, filter and cost queries. Each table is a sequence of rows: the
  statistics table keeps its domain column unique, so it behaves as a map. A
  sequence is used because the filtered listing needs an order.
- **Domain records** (`ValueObjects`, `Entities`, `SearchEntities`,
  `ImageSearchService`). The constructors that raise `ValueError` return a
  `Failure` instead. The image-search report keeps its located-result counter,
  and the multi-source search driver runs over abstract providers.
- **Register import** (`DataTransformer`, `ImportService`). This covers the
  "Label:value" description parser, artist and creation-year heuristics, the
  image-host rewrite, batch transformation and batch import counters.
- **Search and listing** (`ArtworkService`, `Routes`). This covers the
  case-insensitive artist and title search over the first `2 * limit` rows, the
  merge of artist and title results by id, page slicing, the ceiling page count,
  and the category check of the domain-statistics endpoint.
- **Utilities** (`UuidUtils`, `SearchCache`, `AnalyzeMethods`). This covers UUID
  hyphenation in the 8-4-4-4-12 layout of section 3 of RFC 4122, and the
  normalisation of cache keys and domains. It also covers the method-length
  scanner as a state machine over the lines of a file.

Shared modules: `Wrappers` provides `Option`/`Result`, `Text` the Python string
primitives the code relies on, and `Sequences` filtering, subsequences and
Python slicing.

Foreign computations are parameters of the functions that use them:

- the SHA-256 hex digest;
- the URL parser's network location;
- the embedding similarity;
- the artwork repository's existence test;
- each save's success;
- clocks and generated identifiers.

## Model

| member | source | states |
|---|---|---|
| Hamming.Distance | src/services/similarity_service.py:39-49 | a missing hash (empty) or a length mismatch gives the sentinel 999; otherwise the distance is the number of differing bits of the two hashes, at most four per hex digit |
| Hamming.XorPopCountIsMismatchCount | src/services/similarity_service.py:46-49 | counting the one bits of `int(a,16) ^ int(b,16)` digit by digit equals counting the differing bits of the two bit strings |
| Hamming.DigitXor | src/services/similarity_service.py:48-49 | for one hex digit, the one bits of the XOR are exactly the positions where the digits' bits differ |
| Hamming.Bits | src/services/similarity_service.py:46-47 | a hash of n hex digits encodes 4n bits |
| Hamming.MismatchesBound | src/services/similarity_service.py:49 | two equal-length bit strings differ in at most their length positions |
| Hamming.MismatchesConcat | src/services/similarity_service.py:49 | differing bits of concatenated strings add up part by part |
| Hamming.MismatchesSymmetric | src/services/similarity_service.py:48 | counting differing bits does not depend on argument order |
| Hamming.MismatchesSelf | src/services/similarity_service.py:48 | a bit string differs from itself nowhere |
| Hamming.DistanceSymmetric | src/services/similarity_service.py:39-49 | the distance is symmetric, sentinel cases included |
| Hamming.DistanceSelf | src/services/similarity_service.py:39-49 | a present hash is at distance 0 from itself |
| Hamming.DistanceOf64BitHashes | src/cv_pipeline/perceptual_hasher.py:114-115 | two 16-digit (64-bit) hashes are at most 64 bits apart |
| PerceptualHasher.HasherDistance | src/cv_pipeline/perceptual_hasher.py:101-127 | the hasher's distance of two 8x8 hashes counts differing cells and is at most 64 |
| PerceptualHasher.HasherAgreesWithService | src/cv_pipeline/perceptual_hasher.py:124-127 | on 64-bit hashes the hasher's distance equals the similarity service's XOR popcount |
| PerceptualHasher.LevelOf | src/cv_pipeline/perceptual_hasher.py:163-174 | exactly one of five labels, each holding iff the distance lies in its band 0-5, 6-10, 11-15, 16-20, 21+ (thresholds of config/cv_config.py:13-16) |
| PerceptualHasher.LevelMonotone | src/cv_pipeline/perceptual_hasher.py:165-174 | a larger distance never yields a closer level |
| PerceptualHasher.DefaultSimilarityMatchesLevel | src/cv_pipeline/perceptual_hasher.py:129-146 | with the default threshold 15, `is_similar` holds iff the level is identical, very_similar or similar |
| PerceptualHasher.SelfIsIdentical | src/cv_pipeline/perceptual_hasher.py:145-174 | a hash compared with itself is "identical" and similar under every non-negative threshold |
| SimilarityService.FindFeatures | src/services/similarity_service.py:99-101 | the source record found for an id is a stored record with that id; no record is found only when none has that id |
| SimilarityService.HashCandidates | src/services/similarity_service.py:107-138 | every match of the scan comes from a scanned record that is another artwork, has a hash, lies within the threshold and exists in the repository, scored 1 - distance/64 |
| SimilarityService.FindSimilarByHash | src/services/similarity_service.py:99-142 | `[]` when the source has no record or no hash; otherwise exactly the first min(`limit`, number of hits) entries of the full ranking, each another existing artwork within the threshold with score 1 - distance/64, ascending by distance |
| SimilarityService.HashRankingFacts | src/services/similarity_service.py:107-141 | the ranking before truncation is sorted by distance and holds only valid results |
| SimilarityService.HashSearchComplete | src/services/similarity_service.py:104-142 | every scanned hit within the threshold is ranked, and a hit cut off by the limit is no closer than any returned result |
| SimilarityService.HitIsCandidate | src/services/similarity_service.py:108-138 | a record that passes every test of the loop produces a match |
| SimilarityService.HashSearchStable | src/services/similarity_service.py:141 | results at equal distance keep their store order (Python's sort is stable) |
| SimilarityService.HashScoresNormalised | src/services/similarity_service.py:136 | with a threshold of at most 64 every score lies in [0, 1] |
| SimilarityService.ClipCandidates | src/services/similarity_service.py:169-199 | every match of the scan comes from another scanned artwork with an embedding whose similarity reaches the threshold and which exists in the repository |
| SimilarityService.FindSimilarByClip | src/services/similarity_service.py:161-203 | `[]` when the source has no record or no embedding; otherwise exactly the first min(`limit`, number of hits) entries of the ranking, each another existing artwork with similarity at least the threshold, in descending similarity |
| SimilarityService.ClipRankingFacts | src/services/similarity_service.py:169-202 | the ranking before truncation is sorted by descending similarity and holds only artworks that passed the tests |
| SimilarityService.ClipSearchComplete | src/services/similarity_service.py:166-203 | every scanned record passing the embedding tests is ranked, and a hit cut off by the limit is no more similar than any returned result |
| SimilarityService.ClipHitIsCandidate | src/services/similarity_service.py:170-199 | a record that passes every test of the embedding loop produces a match |
| SimilarityService.IndexOfId | src/services/similarity_service.py:251 | a dictionary key is found at its first position, and not found only when absent |
| SimilarityService.FindSimilarHybrid | src/services/similarity_service.py:226-271 | a successful hybrid search returns at most `limit` entries sorted by descending combined score (its exact length and contents are stated by `SimilarityService.HybridResults`) |
| SimilarityService.HybridResults | src/services/similarity_service.py:226-271 | with one record per artwork the hybrid search succeeds with exactly min(`limit`, number of artworks found) entries, lists each artwork once, gives each entry the hash score, embedding score, method list and mean score of the searches that found it, never lists the source, and drops only entries scoring no higher than every kept one |
| SimilarityService.MergeIsReference | src/services/similarity_service.py:239-265 | for match lists without repeated artworks the two dictionary loops produce the reference merge (hash entries, combined where the embedding search also found them, then the embedding-only entries) and never fail |
| SimilarityService.ReferenceEntries | src/services/similarity_service.py:241-265 | the merge holds one entry per artwork found by either search and no other, each with the scores, methods and mean score of the searches that found it |
| SimilarityService.HashPart | src/services/similarity_service.py:241-258 | one entry per hash match, in hash order, combined with that artwork's embedding match when there is one |
| SimilarityService.ClipPartMembers | src/services/similarity_service.py:259-265 | exactly the embedding matches whose artwork the hash search did not return become embedding-only entries |
| SimilarityService.ClipFor | src/services/similarity_service.py:249-251 | the embedding match found for an artwork is one of the list with that id; none only if no match has that id |
| SimilarityService.AddClipStep | src/services/similarity_service.py:249-265 | one embedding match for a new artwork moves the dictionary from the reference merge of the matches before it to that of the matches including it |
| SimilarityService.AddClipToHashed | src/services/similarity_service.py:251-258 | an embedding match for a hashed artwork adds its score, appends the method and sets the mean score in place |
| SimilarityService.AddClipNew | src/services/similarity_service.py:259-265 | an embedding match for an unseen artwork appends an embedding-only entry |
| SimilarityService.MergeHashesFrom | src/services/similarity_service.py:241-247 | the first loop turns distinct hash matches into one entry each, in order |
| SimilarityService.MergeClipsFrom | src/services/similarity_service.py:249-265 | the second loop, over distinct embedding matches, reaches the reference merge |
| SimilarityService.ReferenceDistinct | src/services/similarity_service.py:239-265 | the merged dictionary has unique artwork ids |
| SimilarityService.ReferenceComplete | src/services/similarity_service.py:239-265 | every artwork either search returned has an entry |
| SimilarityService.HashResultsDistinct | src/services/similarity_service.py:104-142 | with one record per artwork the hash search lists each artwork at most once |
| SimilarityService.ClipResultsDistinct | src/services/similarity_service.py:166-203 | with one record per artwork the embedding search lists each artwork at most once |
| SimilarityService.RankedPrefix | src/services/similarity_service.py:268-271 | sorting best first and truncating keeps only merged entries, each once, and no dropped entry outscores a kept one |
| SimilarityService.HybridEntryIsOther | src/services/similarity_service.py:241-265 | a merged entry never names the source artwork and always names an existing one |
| SimilarityService.RepeatedEmbeddingMatchFails | src/services/similarity_service.py:249-258 | an artwork listed twice by the embedding search and not by the hash search makes the second loop read a missing `hash_score` and fail |
| SimilarityService.WithHash | src/services/similarity_service.py:288-291 | the valid records are the scanned records with a hash: every kept record has one, every record with one is kept as often as it is stored, and the kept records are a subsequence of the scanned ones, so store order is kept |
| SimilarityService.AddMatch | src/services/similarity_service.py:311-338 | a match within the threshold adds the anchor first when the group is empty, then the match with its distance, and checks no artwork other than those two |
| SimilarityService.GrowGroup | src/services/similarity_service.py:302-338 | the inner loop only appends entries anchored to `valid[i]` whose artworks were unchecked, keeps the anchor first, only grows the checked set and checks only the anchor and later records within the threshold; with one record per artwork, every later known, unchecked record within the threshold is appended with its distance |
| SimilarityService.GrowStep | src/services/similarity_service.py:309-338 | one matching step followed by the rest of the inner loop checks only matches and loses no unchecked match |
| SimilarityService.ScanGroups | src/services/similarity_service.py:297-344 | the outer loop yields groups of at least two, in anchor order, no group holding an artwork checked before it, no artwork in two groups, and with one record per artwork no group repeating an artwork |
| SimilarityService.ScanHeadsGroup | src/services/similarity_service.py:297-344 | with one record per artwork, when the outer loop reaches a known, unchecked anchor with a known, unchecked later match within the threshold, the first group it reports is anchored there, headed by the anchor and holds that match at its distance |
| SimilarityService.AnchorHeadsGroup | src/services/similarity_service.py:311-338 | a group holding a member, grown from a known anchor, is headed by the anchor and has at least two entries |
| SimilarityService.AfterAnchor | src/services/similarity_service.py:297-338 | one outer-loop turn only adds artworks to the checked set, each the anchor's or that of a later record within the threshold of it |
| SimilarityService.CheckedFromBy | src/services/similarity_service.py:295-338 | every artwork checked when the outer loop, started at `valid[s]`, reaches `valid[n]` was checked before it started or by an anchor in between, as the anchor or as a later match of it |
| SimilarityService.ScanStep | src/services/similarity_service.py:297-344 | the groups the outer loop reports after its turn at `valid[k]` are among those it reports from `valid[k]` on |
| SimilarityService.NextTurn | src/services/similarity_service.py:297-344 | a turn of the outer loop before `valid[i]` leaves an unchecked pair unchecked, and loses none of the groups reported after it |
| SimilarityService.ScanFinds | src/services/similarity_service.py:297-344 | the outer loop started at `valid[s]` reports a group anchored at `valid[i]`, headed by it and holding `valid[m]` at its distance, when both are known, within the threshold and unchecked on reaching `valid[i]` |
| SimilarityService.UncheckedRecord | src/services/similarity_service.py:297-338 | with one record per artwork, a record no earlier record is within the threshold of is still unchecked when the outer loop reaches `valid[n]` |
| SimilarityService.DuplicateScan | src/services/similarity_service.py:285-344 | the anchored groups over the valid records, with the outer loop's invariant from the start |
| SimilarityService.FindDuplicates | src/services/similarity_service.py:285-346 | every reported group has size equal to its entry count and at least 2, names only existing artworks, and no artwork appears in two groups |
| SimilarityService.DuplicatesComplete | src/services/similarity_service.py:297-344 | with one record per artwork, when the outer loop reaches a known, unchecked anchor, every later known, unchecked record within the threshold is reported in the group that anchor heads, at its distance |
| SimilarityService.PairReported | src/services/similarity_service.py:295-344 | over the valid records, with one record per artwork: two known records within the threshold of each other, neither within the threshold of an earlier record, are reported together in a group anchored at the earlier one, which heads it, the later one at its distance |
| SimilarityService.DuplicatesReported | src/services/similarity_service.py:297-344 | with one record per artwork, two known records within the threshold of each other, neither within the threshold of an earlier record, are reported together in the group the earlier one heads |
| SimilarityService.DuplicateGroupsAnchored | src/services/similarity_service.py:297-338 | every group entry is the anchor (first, without distance) or a later valid record within the threshold of the anchor at the distance it reports; with one record per artwork no group repeats an artwork |
| SimilarityService.ConsGroup | src/services/similarity_service.py:340-344 | prepending a group of at least two to the later groups keeps the outer loop's invariant |
| SimilarityService.ConsDisjoint | src/services/similarity_service.py:298-304 | a group built only from unchecked artworks shares no artwork with later groups, which avoid checked ones |
| SimilarityService.WithHashDistinct | src/services/similarity_service.py:288-291 | filtering keeps distinct artwork ids distinct |
| SimilarityService.FilterDistinct | src/services/similarity_service.py:288-291 | any filter of records with distinct artwork ids keeps them distinct |
| StableSort.SortBy | src/services/similarity_service.py:141 | the sort's output is a permutation of its input, ordered by the key |
| StableSort.SortByStable | src/services/similarity_service.py:141 | elements with equal keys keep their input order |
| VisionEntities.CategoryNamesDistinct | src/services/vision_tracking_service.py:259-278 | the six category names are pairwise different, so the stored name determines the category |
| VisionRepository.SaveRequest | src/repositories/vision_repository.py:35-82 | saving appends one request row and touches no statistics; the row equals the request except that match and entity rows are attached only when the results are interesting |
| VisionRepository.TotalApiCostAfterSave | src/repositories/vision_repository.py:140-145 | the sum of `api_cost_units` grows by exactly the saved request's cost (0 with no rows) |
| VisionRepository.TotalApiCostOfDefaults | src/repositories/vision_repository.py:144-145 | when every request has the default cost of one unit (src/domain/vision_entities.py:38), the total is the number of requests |
| VisionRepository.FindDomainStats | src/repositories/vision_repository.py:181-197 | the row found for a domain is a stored row for that domain; `None` only when no row has that domain |
| VisionRepository.IndexOfDomain | src/repositories/vision_repository.py:153 | `filter_by(domain=...).first()` finds the first row for the domain, and nothing only when there is none |
| VisionRepository.SaveDomainStats | src/repositories/vision_repository.py:149-179 | after saving, the domain reads back the upserted row; every other domain reads back as before; the domain column stays unique |
| VisionRepository.SaveThenFind | src/repositories/vision_repository.py:155-174 | a new domain reads back exactly as saved; an existing one reads back the saved counters, artworks, last-seen time and flag, keeps its first-seen time, and keeps its category unless the new one is non-empty |
| VisionRepository.FindAtFirstIndex | src/repositories/vision_repository.py:185 | the lookup returns the first row with the domain |
| VisionRepository.AppendRow | src/repositories/vision_repository.py:163-174 | inserting a row for a new domain makes it found and changes no other lookup |
| VisionRepository.ReplaceRow | src/repositories/vision_repository.py:155-162 | updating the row of an existing domain in place changes only that domain's lookup |
| VisionRepository.FindAppended | src/repositories/vision_repository.py:185 | a lookup in a table with one more row finds the old answer, or the new row if none |
| VisionRepository.FindReplaced | src/repositories/vision_repository.py:185 | replacing the first row of a domain changes only that domain's lookup |
| VisionRepository.FilterStats | src/repositories/vision_repository.py:210-216 | the rows matching the category filter (applied only when it is non-empty) and the suspicious filter: every such row as often as it is stored and no other, as a subsequence of the table |
| VisionRepository.FindAllDomainStats | src/repositories/vision_repository.py:201-233 | exactly min(`limit`, number of passing rows) rows, drawn from the passing rows without repeating any more often than it is stored, in descending total appearances, and no passing row left out has more appearances than a returned one |
| VisionRepository.TopRanked | src/repositories/vision_repository.py:218-233 | the first `limit` rows of a descending ranking of the passing rows are as many as `LIMIT` allows, pass the filters, are a sub-multiset of the passing rows, and outrank every row left out |
| VisionRepository.RankedOut | src/repositories/vision_repository.py:218-219 | a row cut off by `LIMIT` has no more appearances than any returned row |
| VisionTracking.ExtractDomain | src/services/vision_tracking_service.py:249-257 | empty URL or failing parse gives `""`; otherwise exactly the lower-cased authority the parser returns, without removing `www.` |
| VisionTracking.Categorize | src/services/vision_tracking_service.py:259-278 | for each category, the domain gets it iff it is non-empty, one of that category's patterns occurs in the lower-cased domain and no pattern of an earlier table (auction, marketplace, museum, social, academic) does; `other` iff the domain is empty or no table matches |
| VisionTracking.ClassificationIgnoresCase | src/services/vision_tracking_service.py:259-286 | category and suspicion do not depend on letter case |
| VisionTracking.AuctionTakesPriority | src/services/vision_tracking_service.py:266-268 | an auction pattern wins over every other table |
| VisionTracking.ChristiesIsAuction | src/services/vision_tracking_service.py:259-268 | "www.christies.com" is an auction domain |
| VisionTracking.AuctionWordIsSuspicious | src/services/vision_tracking_service.py:280-286 | a domain containing "auction" is both an auction domain and suspicious, independently decided |
| VisionTracking.MatchInterest | src/services/vision_tracking_service.py:221-247 | the score is the base for the match type (10, 5, 2, 0) plus the category bonus (auction 20, marketplace 15, social 5, museum 2, else 0) plus 10 on a suspicious domain; hence at most 40, and at least 15 for a non-page match on an auction or marketplace domain |
| VisionTracking.CategoryBonusOrder | src/services/vision_tracking_service.py:233-241 | bonuses order auction > marketplace > social > museum > academic = other = 0 |
| VisionTracking.RefsFor | src/services/vision_tracking_service.py:79-96 | a page adds one entry per listing of the image, and some entry iff it lists the image |
| VisionTracking.RefsOn | src/services/vision_tracking_service.py:74-96 | a page contributes entries iff it lists the image, the first one full if the page lists the image among its full matches |
| VisionTracking.FirstListing | src/services/vision_tracking_service.py:74-96 | the first page in input order listing the image; none only if no page does |
| VisionTracking.PageInfoIsFirstListing | src/services/vision_tracking_service.py:73-109 | a full or partial match takes page URL and title from the first page listing its image, as a full entry if that page lists it as full; none when no page lists it |
| VisionTracking.ImageMatches | src/services/vision_tracking_service.py:98-156 | one match per full or partial image, in input order |
| VisionTracking.SimilarMatches | src/services/vision_tracking_service.py:158-170 | every visually similar image is stored, one match each, in order |
| VisionTracking.PageMatches | src/services/vision_tracking_service.py:176-189 | every page is stored as a page match, in order |
| VisionTracking.Contribution | src/services/vision_tracking_service.py:126-193 | a similar match on a non-commercial domain adds 0; a page adds exactly 10 iff its domain is auction/marketplace or suspicious, else 0; nothing adds more than 40 |
| VisionTracking.InterestOf | src/services/vision_tracking_service.py:127-193 | the accumulated score is at most 40 per match |
| VisionTracking.InterestOfConcat | src/services/vision_tracking_service.py:127-193 | the score of two match lists is the sum of their scores |
| VisionTracking.InterestAtLeastMember | src/services/vision_tracking_service.py:127-193 | the total is at least any single match's contribution |
| VisionTracking.InterestOfAll | src/services/vision_tracking_service.py:98-193 | the total is the sum of what the full, partial, similar and page lists contribute |
| VisionTracking.MoreInputsNeverLowerInterest | src/services/vision_tracking_service.py:98-193 | appending inputs to any of the four lists never lowers the score |
| VisionTracking.CommercialImageMakesInteresting | src/services/vision_tracking_service.py:221-237 | one full, partial or similar image on an auction or marketplace domain makes the response interesting |
| VisionTracking.SinglePageIsNotEnough | src/services/vision_tracking_service.py:191-204 | a response with one page and nothing else is never interesting |
| VisionTracking.ImageInterestIgnoresPages | src/services/vision_tracking_service.py:104-127 | page attribution never changes what a full or partial match scores |
| VisionTracking.ImageMatchesConcat | src/services/vision_tracking_service.py:99-120 | the image loops map each input independently |
| VisionTracking.SimilarMatchesConcat | src/services/vision_tracking_service.py:159-170 | the similar loop maps each input independently |
| VisionTracking.PageMatchesConcat | src/services/vision_tracking_service.py:177-189 | the page loop maps each input independently |
| VisionTracking.BestFrom | src/services/vision_tracking_service.py:122-154 | the running best is at least its start and every image score (absent reads 0), and equals the start or one of them |
| VisionTracking.IndexOfTally | src/services/vision_tracking_service.py:295 | a domain's tally entry is found at its position, and not found only when absent |
| VisionTracking.FirstCategory | src/services/vision_tracking_service.py:295-300 | a domain has a first category iff one of the matches comes from it |
| VisionTracking.TallyCorrect | src/services/vision_tracking_service.py:290-302 | the counting loop yields one entry per non-empty domain that occurs, with the number of its matches and the category of its first match |
| VisionTracking.TallySkipsEmpty | src/services/vision_tracking_service.py:294 | a match with an empty domain leaves the tally correct and unchanged |
| VisionTracking.TallyBumps | src/services/vision_tracking_service.py:301 | a match for a known domain adds one to its count |
| VisionTracking.TallyAppends | src/services/vision_tracking_service.py:295-301 | a match for a new domain adds an entry with count 1 and its category |
| VisionTracking.Dedup | src/services/vision_tracking_service.py:311 | `list(set(...))` keeps exactly the same elements, each once |
| VisionTracking.ApplyTally | src/services/vision_tracking_service.py:305-328 | one iteration leaves the domain's row bumped from what was there and every other domain as it was |
| VisionTracking.ApplyTallies | src/services/vision_tracking_service.py:305-328 | the update loop keeps the domain column unique |
| VisionTracking.ApplyTalliesEffect | src/services/vision_tracking_service.py:305-328 | after the loop a tallied domain has its bumped row and every other domain its old row |
| VisionTracking.UpdateDomainStats | src/services/vision_tracking_service.py:288-328 | the update keeps the domain column unique |
| VisionTracking.DomainStatsUpdate | src/services/vision_tracking_service.py:288-328 | empty or absent domains keep their row; a batch domain's appearances grow by exactly its match count, its artworks gain this artwork with set semantics, last seen is now, first seen and category are kept (a new row takes now and the first match's category), and the flag is set iff it was set or the category is auction/marketplace |
| VisionTracking.Entities | src/services/vision_tracking_service.py:196-201 | one entity per web entity, in order, an absent description read as `""` |
| VisionTracking.Analyze | src/services/vision_tracking_service.py:37-219 | the request counts equal the input lengths; interesting iff the score is at least 15; best score is max(0.0, full and partial scores); when interesting the matches are all the built matches and the entities are the web entities field by field, and otherwise both are empty; the request is appended; domain stats change only when interesting, by the update |
| VisionTracking.EmptyResponse | src/services/vision_tracking_service.py:57-219 | an empty response is recorded as an uninteresting request with best score 0.0 and no statistics change |
| VisionTracking.AnalysisCostsOneUnit | src/services/vision_tracking_service.py:57-65 | each analysis adds exactly one unit to the total API cost |
| ValueObjects.NewSimilarityScore | src/domain/value_objects.py:17-22 | a score is constructed iff 0.0 <= value <= 1.0, keeping the value; otherwise the constructor fails |
| ValueObjects.ConfidenceBands | src/domain/value_objects.py:7-34 | high confidence iff the value meets 0.90, low confidence iff it misses 0.60, no score is both, and the scores in between are neither |
| ValueObjects.MeetsLowerThreshold | src/domain/value_objects.py:32-34 | a score meeting a threshold meets every lower one |
| ValueObjects.NewDateRange | src/domain/value_objects.py:44-56 | a range is constructed iff 1000 <= start <= end <= 3000; the start year is checked first, then the end year |
| ValueObjects.RangeContainsEndpoints | src/domain/value_objects.py:58-60 | a constructed range contains both endpoints and only years within 1000..3000 |
| Entities.NewArtwork | src/domain/entities.py:58-64 | construction succeeds iff there is a title or an artist and the creation year is absent or non-negative; the missing title and artist are reported first |
| Entities.CreationYearRule | src/domain/entities.py:63-64 | a year is accepted iff it is non-negative, so 0 passes; an unknown year is accepted |
| Entities.NewMatch | src/domain/entities.py:116-124 | construction succeeds iff the combined score lies in [0, 1] and the two artwork ids differ; the score is checked first |
| Entities.SubScoresUnchecked | src/domain/entities.py:116-124 | the visual and metadata scores are never validated |
| SearchEntities.MatchCount | src/domain/search_entities.py:57-58 | the number of located results (successful, with a non-empty URL) is at most the number of results, and 0 iff none located the image |
| SearchEntities.NewReport | src/domain/search_entities.py:41-52 | a fresh report has no sources, no results, a zero counter consistent with them, and is not completed |
| SearchEntities.AddResult | src/domain/search_entities.py:54-58 | the result is always appended; the counter grows by one iff the result is successful with a non-empty URL, otherwise stays; nothing else changes |
| SearchEntities.AddResultKeepsCount | src/domain/search_entities.py:50-58 | adding a result keeps the counter equal to the number of located results, hence at most the number of results |
| SearchEntities.AddResultsEffect | src/domain/search_entities.py:54-58 | adding results one by one appends them all in order, keeps the counter consistent and changes nothing else |
| SearchEntities.ResultsBySource | src/domain/search_entities.py:60-68 | exactly the results from the given source are kept |
| SearchEntities.ResultsBySourceIsFilter | src/domain/search_entities.py:60-68 | the per-source view is the order-keeping filter: a subsequence of the results holding each result from the source as often as it was added, and no other |
| SearchEntities.ResultsBySourceAppend | src/domain/search_entities.py:65-68 | filtering distributes over appending, so the kept results stay in insertion order |
| SearchEntities.ResultsBySourceCover | src/domain/search_entities.py:60-68 | the five per-source views together account for every result exactly once |
| SearchEntities.WasFound | src/domain/search_entities.py:70-72 | on a consistent report, found iff some result located the image |
| ImageSearchService.AvailableProviders | src/services/image_search_service.py:25-28 | the providers reporting themselves available: each as often as it is configured and no other, as a subsequence of the configuration, so configuration order is kept |
| ImageSearchService.SourcesOfIndex | src/services/image_search_service.py:30-32 | the recorded sources are the providers' sources position by position |
| ImageSearchService.ResultsOfMembers | src/services/image_search_service.py:34-37 | a result is reported iff one of the queried providers returned it |
| ImageSearchService.GetAvailableSources | src/services/image_search_service.py:44-50 | a source is listed iff some available provider has it |
| ImageSearchService.QueryProviderEffect | src/services/image_search_service.py:30-37 | one loop turn records the provider's source and appends all its results, keeping the counter consistent |
| ImageSearchService.SearchImage | src/services/image_search_service.py:18-42 | exactly the available providers are queried, in order; the sources searched equal the available sources; every result of every queried provider is added in order; the counter is consistent; the search is marked completed |
| ArtworkService.FindAll | src/repositories/sqlite_repository.py:50-59 | the rows read are the first `limit` of the store (all of it when shorter or when the limit is negative, as SQLite reads a negative `LIMIT`) |
| ArtworkService.SearchByArtist | src/services/artwork_service.py:29-74 | for a non-negative limit, the result is exactly the first min(`limit`, number of hits) artworks, in store order, among the first `2*limit` rows whose artist's lower-cased name contains the lower-cased term; artworks without an artist never match |
| ArtworkService.SearchByTitle | src/services/artwork_service.py:50-82 | for a non-negative limit, the result is exactly the first min(`limit`, number of hits) artworks, in store order, among the first `2*limit` rows whose lower-cased title contains the lower-cased term |
| ArtworkService.SearchByFacts | src/services/artwork_service.py:35-48 | the result is the first min(`limit`, number of hits) hits among the first `2*limit` rows, in store order; so every result is a hit and, when those rows hold at most `limit` hits, all are returned |
| ArtworkService.SearchReturnsEarlyHits | src/services/artwork_service.py:35-48 | a hit among the first `2*limit` rows with fewer than `limit` hits before it is always returned |
| ArtworkService.SearchIgnoresLaterRows | src/services/artwork_service.py:35-38 | rows past the first `2*limit` are never examined: changing them changes no result |
| Sequences.SliceTo | src/services/artwork_service.py:48 | Python's `s[:n]`: a prefix of `s` of length min(n, len) for n >= 0, and all but the last -n elements (nothing when -n >= len) for negative n |
| ImportService.Successes | src/services/import_service.py:27-28 | the number of successful saves is at most the batch size; it equals it iff every save succeeded, and is 0 iff none did |
| ImportService.ImportBatch | src/services/import_service.py:22-36 | every artwork is attempted exactly once, in order, failures included; imported + failed == total == batch size; imported equals the number of successful saves |
| ImportService.SuccessesConcat | src/services/import_service.py:25-30 | the counts of two parts of a batch add up, so a failure in one part never affects the other |
| DataTransformer.ValueEnd | src/services/data_transformer.py:66-71 | the end of a value is the nearest occurrence, at an offset above 0, of any field marker, or the end of the remaining text when there is none |
| DataTransformer.FirstLabel | src/services/data_transformer.py:58-60 | the label used is the first one in list order that occurs in the description; none is used only when no label occurs |
| DataTransformer.After | src/services/data_transformer.py:62-64 | the remaining text starts right after an occurrence of the label |
| DataTransformer.CutValue | src/services/data_transformer.py:64-74 | the value is the whole remaining text stripped when no field marker is found at an offset above 0, and otherwise the stripped text before the nearest such marker |
| DataTransformer.CutAt | src/services/data_transformer.py:64-74 | for any non-empty markers, the stripped text before the nearest marker found at an offset above 0, or the whole stripped text |
| DataTransformer.MarkerEnd | src/services/data_transformer.py:66-71 | the marker scan over the remaining text ends within it, at its end when no marker is found at an offset above 0 and at the nearest marker otherwise |
| DataTransformer.FieldPresence | src/services/data_transformer.py:51-77 | a field is present iff its English or its Polish label occurs; the English label wins when both occur |
| DataTransformer.FirstNationality | src/services/data_transformer.py:98-102 | no nationality iff the name mentions none of the listed ones; otherwise the first in list order that it mentions, case-sensitively |
| DataTransformer.ExtractArtist | src/services/data_transformer.py:79-107 | no artist iff the stripped author text is blank, is an "unknown" marker in any case, or contains a leaked field label; otherwise an artist named by that text, with no birth or death year and the first nationality it mentions |
| DataTransformer.UnknownInAnyCase | src/services/data_transformer.py:87 | "Unknown", "UNKNOWN" and any other casing give no artist |
| DataTransformer.YearsFrom | src/services/data_transformer.py:123 | every year found by the year pattern lies between 1000 and 2029 |
| DataTransformer.FindCenturyLeftmost | src/services/data_transformer.py:131 | the century match is the leftmost position where the century pattern matches; none only when it matches nowhere |
| DataTransformer.QuarterOffset | src/services/data_transformer.py:134-144 | the year within the century is 12, 37, 62 or 87 for the first quarter marker found ("1st"/"first" before "2nd"/"second" before "3rd"/"third" before "4th"/"fourth", the words in any case), and 50 exactly when no marker occurs |
| DataTransformer.YearFromYears | src/services/data_transformer.py:124-128 | no year iff no four-digit year was found; for two or more, the result lies between the first two (their floored mean); for one, that year |
| DataTransformer.ExtractYear | src/services/data_transformer.py:109-148 | empty text gives no year; any four-digit year decides the result; otherwise a century expression gives a year strictly inside that century, its middle when no quarter marker precedes the expression |
| DataTransformer.ExtractYearAsWritten | src/services/data_transformer.py:109-148 | empty text gives no year; the quarter markers are searched in the whole text |
| DataTransformer.ReadingsAgreeWithoutCentury | src/services/data_transformer.py:119-128 | without a century expression, or with a four-digit year, both readings agree |
| DataTransformer.RangeMidpointExample | src/services/data_transformer.py:114 | "1820-1830" gives 1825 |
| DataTransformer.QuarterExample | src/services/data_transformer.py:113 | "4th. quarter of 19th cent." gives 1887 under both readings |
| DataTransformer.CenturyOrdinalReadAsQuarter | src/services/data_transformer.py:137-144 | "14th cent." gives 1387 as written and 1350 when corrected |
| DataTransformer.FixImageUrl | src/services/data_transformer.py:164-177 | a missing or empty URL, or one not naming the English host, is returned unchanged; a present URL stays present |
| DataTransformer.FixImageUrlRewritesHost | src/services/data_transformer.py:173-175 | a URL naming the English host once, with no earlier occurrence starting before it, has exactly that host replaced by the Polish host |
| DataTransformer.TransformScrapedArtwork | src/services/data_transformer.py:11-40 | no artwork iff the stripped title is blank; a failure only for a negative creation year; otherwise a known-looted artwork last known in Poland on 1939-09-01, with the parsed artist, year, object type and fixed image URL |
| DataTransformer.CollectBatchMeaning | src/services/data_transformer.py:155-162 | success iff every record succeeds, holding exactly the artworks the records yield; otherwise the error of the first failing record |
| DataTransformer.TransformBatchContents | src/services/data_transformer.py:150-162 | the batch succeeds iff every record does, then holds precisely the artworks some record yields, at most one per record; a failure carries a failing record's error |
| DataTransformer.CollectBatchConcat | src/services/data_transformer.py:157-160 | collecting two runs of outcomes gives the first run's artworks followed by the second's |
| DataTransformer.TransformBatchConcat | src/services/data_transformer.py:150-162 | transforming two runs of records gives the first run's artworks followed by the second's, in input order |
| DataTransformer.BatchKeepsTitled | src/services/data_transformer.py:157-160 | a successful batch has exactly one artwork per record with a non-blank title |
| Routes.Put | src/api/routes.py:167 | `d[a.id] = a`: ids stay distinct; an existing id keeps its place and takes the new artwork, a new id goes last |
| Routes.PutHasId | src/api/routes.py:167 | after the assignment the ids present are the old ones and the assigned id |
| Routes.DictOf | src/api/routes.py:167 | the dict built from a list has distinct ids |
| Routes.DictOfIds | src/api/routes.py:167 | the dict built from a list has exactly the list's ids |
| Routes.DictOfValues | src/api/routes.py:167 | the dict holds only artworks of the list and is no longer than it |
| Routes.DictOfDistinct | src/api/routes.py:167 | a list whose ids are already distinct is its own dict, in its own order |
| Routes.AddMissingPrefix | src/api/routes.py:168-170 | the title loop only appends: the dict so far stays in front and at most one artwork per title match is added |
| Routes.AddMissingIds | src/api/routes.py:168-170 | after the title loop an id is present iff it was before or some title match has it |
| Routes.AddMissingNew | src/api/routes.py:168-170 | every appended artwork is a title match whose id was not present |
| Routes.AddMissingOrder | src/api/routes.py:168-170 | appended artworks keep their title-match order |
| Routes.MergeFacts | src/api/routes.py:167-172 | the merged list has distinct ids; the artist matches come first (exactly the artist list when its ids are distinct), then the title matches with a new id in title order; an id is present iff either list has it; length at most the sum |
| Routes.PageOf | src/api/routes.py:174-175 | `xs[offset:offset + page_size]`: each item is the element at the page offset plus its position; the length is `page_size` when the list reaches past the page, what is left after the offset on the last partial page, and zero past the end |
| Routes.PageHoldsIndex | src/api/routes.py:174-175 | element k is on page k / page_size + 1 at position k % page_size, so every element is on some page |
| Routes.TotalPages | src/api/routes.py:178-180 | the page count is the least n with n * page_size >= total; zero iff total is zero |
| Routes.TotalPagesLeast | src/api/routes.py:178-180 | no smaller page count holds every item |
| Routes.PageNonEmptyIff | src/api/routes.py:174-180 | a page has items iff its number is at most the page count |
| Routes.SearchArtworks | src/api/routes.py:146-190 | the total is the length of the merged artist and title results (each search returns at most 50 hits from the first 100 rows, so the total is at most 100) and the items are exactly the requested page of that merged list; the page has distinct ids, each matching the query by artist or by title; the page count covers the total tightly; page and page size are echoed |
| Routes.MergedMatch | src/api/routes.py:164-172 | every merged result matches the query by artist or by title |
| Routes.MergedPage | src/api/routes.py:164-180 | the total is the length of the merged list and the items are exactly the requested page of it |
| Routes.MergedPageFacts | src/api/routes.py:164-175 | a page of the merged results has distinct ids and only matching artworks |
| Routes.ListArtworks | src/api/routes.py:63-128 | the items are exactly the requested page of the stored rows; the total is the row count with the SQLite repository and the listing capped at 10000 otherwise; the page count is the least number of pages that holds the total; with a row count a page is non-empty iff its number is at most the page count |
| Routes.CategoryNamed | src/api/routes.py:578 | a name is mapped to the category whose stored name it is, and to none when no category has it |
| Routes.CheckCategoryAsWritten | src/api/routes.py:578-583 | a listed category is accepted as itself; any other name is answered with status 500, because the 400 constant the handler names does not exist |
| Routes.CheckCategory | src/api/routes.py:578-583 | a listed category is accepted as itself; any other name is rejected with status 400 and the message listing the six valid categories |
| Routes.CheckCategoryRoundTrip | src/api/routes.py:578-579 | every category's stored name passes both checks and yields that category back |
| Routes.UnknownCategoryIsServerError | src/constants.py:5-11 | "gallery" gets 500 as written (taking `HttpConstants` to be the class in this file) and 400 when corrected |
| UuidUtils.RemoveUuidHyphens | src/utils/uuid_utils.py:33-43 | every hyphen is dropped and the other characters kept in order: no '-' remains and the length falls by the number of hyphens |
| UuidUtils.HyphenatedLayout | src/utils/uuid_utils.py:24-30 | 32 hyphen-free characters come out as 36 characters with '-' exactly at indices 8, 13, 18 and 23, and removing the hyphens gives the input back |
| UuidUtils.FormatUuidWithHyphens | src/utils/uuid_utils.py:6-30 | input whose hyphen-free form is not 32 characters is returned unchanged; otherwise the 8-4-4-4-12 layout; either way the hyphen-free form is unchanged |
| UuidUtils.FormatIdempotent | src/utils/uuid_utils.py:17-30 | formatting twice is formatting once |
| SearchCache.Normalize | src/utils/search_cache.py:142 | the normalised text is the lower-cased stripped input, so it is lower-case, has no surrounding whitespace and is no longer than the input; a text is its own normal form iff it is lower-case with no surrounding whitespace |
| SearchCache.HashQuery | src/utils/search_cache.py:129-148 | the query hash is the first 16 characters of the digest of the normalised query, search type and domain joined by `|` |
| SearchCache.HashDomain | src/utils/search_cache.py:151-162 | the domain hash is the first 8 characters of the digest of the normalised domain |
| SearchCache.NormalizeIgnoresCaseAndPadding | src/utils/search_cache.py:142 | normalising is idempotent and absorbs lower-casing and stripping |
| SearchCache.HashQuerySameKey | src/utils/search_cache.py:142-145 | queries differing only in case or surrounding whitespace hash alike, and no domain hashes like the empty domain |
| SearchCache.HashDomainSameKey | src/utils/search_cache.py:161-162 | domains differing only in case or surrounding whitespace hash alike |
| SearchCache.QueryKeyInjective | src/utils/search_cache.py:145 | when search type and domain contain no `|`, equal keys mean equal query, type and domain |
| SearchCache.DropWww | src/utils/search_cache.py:182-183 | exactly one case-sensitive leading `www.` is removed, and nothing else |
| SearchCache.NormalizeDomain | src/utils/search_cache.py:165-185 | the normalised domain is lower-case with no surrounding whitespace |
| SearchCache.NormalizeDomainDropsOneWww | src/utils/search_cache.py:179-185 | a bare domain loses one leading `www.` and keeps whatever follows, second `www.` included |
| SearchCache.NormalizeDomainKeepsOtherPrefixes | src/utils/search_cache.py:179-185 | a bare domain without the lower-case `www.` prefix is only lower-cased and stripped |
| SearchCache.NormalizeDomainOfUrl | src/utils/search_cache.py:175-177 | a URL is normalised exactly as its network location on its own |
| SearchCache.DoubleWwwExample | src/utils/search_cache.py:182-183 | "www.www.a" gives "www.a", and normalising again gives "a": normalisation is not idempotent |
| SearchCache.UpperWwwExample | src/utils/search_cache.py:182-185 | "WWW.a" keeps its prefix and gives "www.a", because the prefix test precedes lower-casing |
| AnalyzeMethods.IndentSpec | analyze_methods.py:46 | the indent is the number of leading whitespace characters |
| AnalyzeMethods.WordRunSpec | analyze_methods.py:47 | the name read is the longest run of word characters at that position |
| AnalyzeMethods.DefNameFromSpec | analyze_methods.py:47-49 | a name is read iff `def ` followed by a word character occurs, and it is the word run after the leftmost such occurrence |
| AnalyzeMethods.FinishFacts | analyze_methods.py:6-62 | after any file every report satisfies the report facts (a named `def` line, more than 20 counted lines, ending at the end of the file or before a `def` line), with start lines ordered |
| AnalyzeMethods.CountMethodLinesFacts | analyze_methods.py:22-62 | with every `def` line closing the previous function, the reports are exactly the long functions: each is a named function of the file (from its `def` line to the end of the file or the line before the next `def` outside docstrings) whose count equals the number of its code lines outside docstrings indented deeper than its `def`, that number exceeds 20, every such function is reported, and start lines strictly increase |
| AnalyzeMethods.CountMethodLinesAsWrittenFacts | analyze_methods.py:38-60 | the code as written keeps every per-report fact but start lines only weakly increase; on a file whose every `def` line has a name it reports exactly what the corrected scanner reports |
| AnalyzeMethods.BlankAndCommentLinesNotCounted | analyze_methods.py:52-56 | blank and comment lines never add to the count and never produce a report |
| AnalyzeMethods.CountedIff | analyze_methods.py:26-56 | a line is counted iff it is read outside a docstring, is not a docstring opener or `def` line, belongs to an open function, is code and is indented deeper than that function's `def` |
| AnalyzeMethods.DocstringLinesSkipped | analyze_methods.py:26-29 | inside a docstring a line only decides whether the docstring ends |
| AnalyzeMethods.OneLineDocstring | analyze_methods.py:31-35 | a docstring opened and closed on one line does not enter docstring mode |
| AnalyzeMethods.NamelessDefReportsTwice | analyze_methods.py:39-51 | as written, a nameless `def` line after a long function reports that function twice with the same start line |
| AnalyzeMethods.NamelessDefReportedOnce | analyze_methods.py:39-51 | corrected, the same input reports the function once, ending before the nameless `def` |
| AnalyzeMethods.DoubleSpaceDefHasNoName | analyze_methods.py:38-49 | `def  g():` is a `def` line from which no name is read |
| AnalyzeMethods.RunInvHolds | analyze_methods.py:22-56 | the loop invariant holds after every prefix of the file: reports so far are true of the lines read, ordered by start, and the open function is named by its `def` line |
| AnalyzeMethods.CountInvHolds | analyze_methods.py:22-56 | after every prefix of the file the corrected scan's docstring state is the docstring fold of the prefix, the open function starts at the last `def` line read and has counted exactly its counted lines, and its reports are exactly the long functions that ended before |
| AnalyzeMethods.CountMethodLinesExact | analyze_methods.py:22-62 | every report of the corrected scanner is a correctly counted long function, and every long function is reported |
| AnalyzeMethods.AllNamedScansAgree | analyze_methods.py:46-51 | when every `def` line has a name, the code as written and the corrected scanner pass through the same states and report the same |

## Left out

- Image hashing, CLIP embeddings and the cosine similarity are not modelled: they are floating-point numerics and machine learning. The similarity is an uninterpreted real-valued parameter and, as in the code, it is not clamped.
- Floats are modelled as exact reals: rounding of `1 - distance / 64`, of the score means and of the threshold comparisons is not modelled.
- Parsing hash text with `int(h, 16)` is not modelled. A hash is its sequence of hex-digit values, because the hasher only ever writes hex text.
- SQL, SQLAlchemy sessions, zlib and JSON are not modelled. Stores are in-memory sequences of rows. `LIMIT` and `OFFSET` are slices, with a negative limit meaning no limit as in SQLite. An `ORDER BY` with equal keys keeps table order, where the database leaves it unspecified.
- `list(set(...))` is modelled as first-occurrence order, because Python leaves the order of a set unspecified. Only the element set and distinctness are promised.
- The unguarded read-modify-write of the domain statistics under concurrent requests is not modelled: the model has a single writer.
- Network clients, scrapers, the HTTP plumbing of the API and every other route handler are not modelled: they are I/O.
- `VisionTracking.ExtractDomain`: the URL parser is a parameter, and `None` stands for the parser raising. Its result is promised only to be the lower-cased network location, not checked against RFC 3986.
- A match whose `score` key is present with the value `None` is not modelled: it would raise `TypeError` in the comparison. An absent score reads as 0.
- Timestamps, request ids and new artwork ids are parameters: the code takes them from the clock and from `uuid4`.
- String case mapping is ASCII only, and `\w` and `\d` are the ASCII classes. Python's Unicode-aware `lower()` and regex classes differ on non-ASCII text. `strip()` uses Python's full whitespace set.
- Error messages of `ValueError` and `HTTPException` are modelled as fixed strings. Where the message interpolates a value, the value is omitted.
- The request validation of the web framework (`ge`, `le` and `min_length` on query parameters) is modelled as preconditions of `Routes.SearchArtworks` and `Routes.ListArtworks`.
- `Routes.ListArtworks`: the `isinstance` test of the repository is a boolean parameter, and the `COUNT(*)` query is the length of the store.
- The positions of the UUID layout (32 characters, hyphens after 8, 12, 16 and 20) come from the format in the docstring of `src/utils/uuid_utils.py`. The `UUIDConstants` class it imports is not part of this model.
- `SearchCache.HashQuery`, `SearchCache.HashDomain`: the digest is uninterpreted, so the hash is promised only as a prefix of at most 16 (or 8) characters of it. The 64-character length of a real SHA-256 hex digest is not assumed.
- The SQL methods of the search cache (storing, reading and expiring entries) are not modelled: they are persistence.
- Reading the file in `count_method_lines` and the command-line driver of `analyze_methods.py` are not modelled. The scanner takes the file's lines.
- `DataTransformer.ExtractYearAsWritten`: its own contract states only the empty-text case. Its behaviour is pinned by `DataTransformer.ReadingsAgreeWithoutCentury` and `DataTransformer.CenturyOrdinalReadAsQuarter`, which relate it to the corrected `DataTransformer.ExtractYear`.
- `DataTransformer.TransformScrapedArtwork`: the creation year comes from the corrected `DataTransformer.ExtractYear`, as the first row of the Findings table describes. For a century whose ordinal ends in "1st" to "4th" and has no quarter marker ("14th cent."), the model gives the middle of the century (1350) where the code gives 1387.
- `SimilarityService.FindSimilarHybrid`: its own contract gives only the bound on the length and the order. The exact length and contents are stated by `SimilarityService.HybridResults`, and only for stores with one feature record per artwork. With duplicate records the merge can meet an embedding match whose artwork has no hash score, and the code then raises; the model returns a `Failure`.
- `SimilarityService.DuplicatesComplete`: completeness is promised only for stores with one feature record per artwork. With two records of one artwork, checking one record's artwork also skips the other record, so a match through the second record can go unreported.
- `AnalyzeMethods.CountMethodLinesAsWrittenFacts`: for the code as written it promises the per-report facts, weakly ordered starts, and agreement with the corrected scanner when every `def` line has a name. It promises no exact counts and no completeness for files with a nameless `def` line. There the open function stays open with the nameless line's indent, so its count is not the count of any one function (see the Findings table).
- The docstring of `_extract_year` gives 1875 for "4th. quarter of 19th cent.", but the code computes 1887. The model follows the code (`DataTransformer.QuarterExample`).

## Findings

| source | as written | input that shows it | evidently intended | confidence | as-written member | corrected member |
|---|---|---|---|---|---|---|
| src/services/data_transformer.py:137-144 | the quarter markers "1st" to "4th" are searched in the whole date text, which includes the century's own ordinal | "14th cent." gives 1387, because "4th" occurs inside "14th"; likewise "21st cent." gives 2012 | a century with no quarter marker gives its middle, 1350 | not executed | `DataTransformer.CenturyOrdinalReadAsQuarter` | `DataTransformer.ExtractYear` |
| src/api/routes.py:578-583 | an unknown category raises `HTTPException(status_code=HttpConstants.STATUS_BAD_REQUEST, ...)`, but the `HttpConstants` class in src/constants.py:5-11 defines no such attribute | category "gallery": evaluating the attribute raises `AttributeError`, and the client receives 500 | a 400 response naming the six valid categories | not executed; low: it holds only if the routes use the `HttpConstants` of src/constants.py as it stands, and that file also lacks `get_database_url`, which src/api/routes.py:12-17 imports, so the routes may run against another version of it | `Routes.UnknownCategoryIsServerError` | `Routes.CheckCategory` |
| analyze_methods.py:39-51 | a `def` line from which `def (\w+)` reads no name closes and reports the open function but leaves it open | a function of more than 20 counted lines followed by the line `def  g():` (two spaces) is reported twice, with the same start line | each function is reported at most once, so start lines strictly increase | not executed | `AnalyzeMethods.NamelessDefReportsTwice` | `AnalyzeMethods.CountMethodLinesFacts` |
