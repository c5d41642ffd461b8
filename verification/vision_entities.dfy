/**
  Records of the reverse-image-search tracking: one match, one web entity, one
  request, and the aggregate statistics kept per web domain. Timestamps are plain
  integers supplied by the caller; identifiers are strings.
 */
module VisionEntities {
  import opened Wrappers

  /** How an image was found; `Name` is the stored `match_type`. */
  datatype MatchType = Full | Partial | Similar | Page {
    function Name(): string {
      match this
      case Full => "full"
      case Partial => "partial"
      case Similar => "similar"
      case Page => "page"
    }
  }

  /** The kind of site a domain belongs to; `Name` is the stored category. */
  datatype Category = Auction | Marketplace | Museum | Social | Academic | Other {
    function Name(): string {
      match this
      case Auction => "auction"
      case Marketplace => "marketplace"
      case Museum => "museum"
      case Social => "social"
      case Academic => "academic"
      case Other => "other"
    }

    /** Auction houses and marketplaces: where a looted work could be offered for sale. */
    predicate IsCommercial() {
      this == Auction || this == Marketplace
    }
  }

  datatype VisionMatch = VisionMatch(
    matchType: MatchType,
    imageUrl: string,
    confidenceScore: Option<real>,
    pageUrl: Option<string>,
    pageTitle: Option<string>,
    domain: string,
    category: Category)

  datatype VisionEntity = VisionEntity(description: string, score: Option<real>)

  /** One search is billed one unit unless stated otherwise. */
  const DEFAULT_API_COST_UNITS: int := 1

  datatype VisionRequest = VisionRequest(
    id: string,
    artworkId: string,
    timestamp: int,
    imageSource: string,
    totalFullMatches: nat,
    totalPartialMatches: nat,
    totalSimilarImages: nat,
    totalPagesWithImage: nat,
    bestMatchScore: Option<real>,
    hasInterestingResults: bool,
    apiCostUnits: int,
    processingTimeMs: Option<int>,
    matches: seq<VisionMatch>,
    entities: seq<VisionEntity>)

  /** Aggregates for one domain; `category` is `None` or a possibly empty name. */
  datatype DomainStats = DomainStats(
    domain: string,
    category: Option<string>,
    totalAppearances: int,
    artworksFound: seq<string>,
    firstSeen: int,
    lastSeen: int,
    flaggedSuspicious: bool)

  /** A category value Python treats as true: present and non-empty. */
  predicate Truthy(category: Option<string>) {
    category.Some? && category.value != ""
  }

  lemma CategoryNamesDistinct(a: Category, b: Category)
    ensures a.Name() == b.Name() <==> a == b
  {
  }
}
