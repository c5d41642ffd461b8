/**
  The perceptual hasher's comparison helpers: its own Hamming distance (the
  imagehash library's bitwise comparison of two 8x8 hashes), `is_similar` and the
  five-band similarity level. Computing a hash from image bytes is not modelled.
 */
module PerceptualHasher {
  import opened Hamming

  /** Upper ends of the distance bands, in bits. */
  const THRESHOLD_IDENTICAL: nat := 5
  const THRESHOLD_VERY_SIMILAR: nat := 10
  const THRESHOLD_SIMILAR: nat := 15
  const THRESHOLD_SOMEWHAT_SIMILAR: nat := 20

  datatype Level = Identical | VerySimilar | Similar | SomewhatSimilar | Different {
    /** The label the hasher returns. */
    function Label(): string {
      match this
      case Identical => "identical"
      case VerySimilar => "very_similar"
      case Similar => "similar"
      case SomewhatSimilar => "somewhat_similar"
      case Different => "different"
    }

    /** How close the level says two images are: 4 for identical down to 0 for different. */
    function Closeness(): nat {
      match this
      case Identical => 4
      case VerySimilar => 3
      case Similar => 2
      case SomewhatSimilar => 1
      case Different => 0
    }
  }

  /**
    The hasher's `hamming_distance`: both hex strings are turned back into 8x8 bit
    arrays and the differing cells are counted.
   */
  function HasherDistance(h1: Hash, h2: Hash): (d: nat)
    requires |h1| == HASH_HEX_LENGTH && |h2| == HASH_HEX_LENGTH
    ensures d <= 64
  {
    MismatchesBound(Bits(h1), Bits(h2));
    Mismatches(Bits(h1), Bits(h2))
  }

  /** On 64-bit hashes the hasher and the similarity service measure the same distance. */
  lemma HasherAgreesWithService(h1: Hash, h2: Hash)
    requires |h1| == HASH_HEX_LENGTH && |h2| == HASH_HEX_LENGTH
    ensures HasherDistance(h1, h2) == Distance(h1, h2)
  {
  }

  /** `is_similar`, with the hasher's default threshold `THRESHOLD_SIMILAR`. */
  predicate IsSimilar(h1: Hash, h2: Hash, threshold: int := THRESHOLD_SIMILAR)
    requires |h1| == HASH_HEX_LENGTH && |h2| == HASH_HEX_LENGTH
  {
    HasherDistance(h1, h2) <= threshold
  }

  /** The band a distance falls in. */
  function LevelOf(d: nat): (l: Level)
    ensures l == Identical <==> d <= THRESHOLD_IDENTICAL
    ensures l == VerySimilar <==> THRESHOLD_IDENTICAL < d <= THRESHOLD_VERY_SIMILAR
    ensures l == Similar <==> THRESHOLD_VERY_SIMILAR < d <= THRESHOLD_SIMILAR
    ensures l == SomewhatSimilar <==> THRESHOLD_SIMILAR < d <= THRESHOLD_SOMEWHAT_SIMILAR
    ensures l == Different <==> THRESHOLD_SOMEWHAT_SIMILAR < d
  {
    if d <= THRESHOLD_IDENTICAL then Identical
    else if d <= THRESHOLD_VERY_SIMILAR then VerySimilar
    else if d <= THRESHOLD_SIMILAR then Similar
    else if d <= THRESHOLD_SOMEWHAT_SIMILAR then SomewhatSimilar
    else Different
  }

  /** `get_similarity_level`. */
  function SimilarityLevel(h1: Hash, h2: Hash): Level
    requires |h1| == HASH_HEX_LENGTH && |h2| == HASH_HEX_LENGTH
  {
    LevelOf(HasherDistance(h1, h2))
  }

  /** A larger distance never yields a closer level. */
  lemma LevelMonotone(d1: nat, d2: nat)
    requires d1 <= d2
    ensures LevelOf(d1).Closeness() >= LevelOf(d2).Closeness()
  {
  }

  /** With the default threshold, "similar" means one of the three closest levels. */
  lemma DefaultSimilarityMatchesLevel(h1: Hash, h2: Hash)
    requires |h1| == HASH_HEX_LENGTH && |h2| == HASH_HEX_LENGTH
    ensures IsSimilar(h1, h2) <==> SimilarityLevel(h1, h2) in {Identical, VerySimilar, Similar}
  {
  }

  /** Identical hashes are "identical" and similar under any non-negative threshold. */
  lemma SelfIsIdentical(h: Hash, threshold: int)
    requires |h| == HASH_HEX_LENGTH && threshold >= 0
    ensures SimilarityLevel(h, h) == Identical
    ensures IsSimilar(h, h, threshold)
  {
    MismatchesSelf(Bits(h));
  }
}
