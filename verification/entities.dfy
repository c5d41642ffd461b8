/**
  The core domain entities: an artist, an artwork and a potential match between
  two artworks, with the validation their constructors perform. Identifiers are
  strings and dates are plain calendar triples.
 */
module Entities {
  import opened Wrappers

  datatype ArtworkStatus = KnownLooted | Suspected | Recovered | Verified {
    function Name(): string {
      match this
      case KnownLooted => "known_looted"
      case Suspected => "suspected"
      case Recovered => "recovered"
      case Verified => "verified"
    }
  }

  datatype Date = Date(year: int, month: int, day: int)

  datatype Artist = Artist(name: string, birthYear: Option<int>, deathYear: Option<int>, nationality: Option<string>)

  datatype Artwork = Artwork(
    id: string,
    title: string,
    artist: Option<Artist>,
    creationYear: Option<int>,
    description: string,
    status: ArtworkStatus,
    imageUrl: Option<string>,
    lastKnownLocation: Option<string>,
    lastKnownDate: Option<Date>)

  /** A creation year the constructor rejects: present, non-zero and negative. */
  predicate NegativeYear(creationYear: Option<int>) {
    creationYear.Some? && creationYear.value != 0 && creationYear.value < 0
  }

  /**
    `Artwork(...)`: it needs a title or an artist (an `Artist` record is always
    truthy), and a creation year that is absent, zero or positive.
   */
  function NewArtwork(id: string, title: string, artist: Option<Artist>, creationYear: Option<int>,
                      description: string, status: ArtworkStatus, imageUrl: Option<string>,
                      lastKnownLocation: Option<string>, lastKnownDate: Option<Date>): (r: Result<Artwork>)
    ensures r.Success? <==> (title != "" || artist.Some?) && (creationYear.None? || creationYear.value >= 0)
    ensures r.Success? ==> r.value == Artwork(id, title, artist, creationYear, description, status, imageUrl,
                                              lastKnownLocation, lastKnownDate)
    ensures title == "" && artist.None? ==> r == Failure("Artwork must have title or artist")
  {
    if title == "" && artist.None? then Failure("Artwork must have title or artist")
    else if NegativeYear(creationYear) then Failure("Creation year cannot be negative")
    else Success(Artwork(id, title, artist, creationYear, description, status, imageUrl,
                         lastKnownLocation, lastKnownDate))
  }

  /** Year 0 and an unknown year are both accepted; any negative year is refused. */
  lemma CreationYearRule(title: string, year: int)
    requires title != ""
    ensures NewArtwork("", title, None, Some(year), "", Suspected, None, None, None).Success? <==> year >= 0
    ensures NewArtwork("", title, None, None, "", Suspected, None, None, None).Success?
  {
  }

  datatype Match = Match(
    queryArtworkId: string,
    candidateArtworkId: string,
    similarityScore: real,
    visualSimilarity: real,
    metadataSimilarity: real,
    confidenceLevel: string)

  /**
    `Match(...)`: the combined score must lie in [0, 1] (checked first) and an
    artwork cannot match itself; the visual and metadata scores are not checked.
   */
  function NewMatch(queryId: string, candidateId: string, similarityScore: real, visualSimilarity: real,
                    metadataSimilarity: real, confidenceLevel: string): (r: Result<Match>)
    ensures r.Success? <==> 0.0 <= similarityScore <= 1.0 && queryId != candidateId
    ensures r.Success? ==> r.value == Match(queryId, candidateId, similarityScore, visualSimilarity,
                                            metadataSimilarity, confidenceLevel)
    ensures !(0.0 <= similarityScore <= 1.0) ==> r == Failure("Similarity score must be between 0.0 and 1.0")
  {
    if !(0.0 <= similarityScore <= 1.0) then Failure("Similarity score must be between 0.0 and 1.0")
    else if queryId == candidateId then Failure("Cannot match artwork with itself")
    else Success(Match(queryId, candidateId, similarityScore, visualSimilarity, metadataSimilarity, confidenceLevel))
  }

  /** The sub-scores are free: any values pass as long as the combined score and the ids are valid. */
  lemma SubScoresUnchecked(q: string, c: string, s: real, v: real, m: real, level: string)
    requires q != c && 0.0 <= s <= 1.0
    ensures NewMatch(q, c, s, v, m, level).Success?
  {
  }
}
