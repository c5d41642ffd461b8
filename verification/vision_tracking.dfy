/**
  Analysis of one reverse-image-search response: every match is classified by the
  web domain it comes from, scored for how interesting it is for provenance
  research, and the batch is kept (with its matches, entities and per-domain
  statistics) only when its total score reaches the threshold.

  The URL parser's authority component (`urlparse(url).netloc`) is a parameter:
  `None` stands for the parser raising.
 */
module VisionTracking {
  import opened Wrappers
  import opened Text
  import opened StableSort
  import opened VisionEntities
  import opened VisionRepository

  const AUCTION_PATTERNS: seq<string> :=
    ["auction", "christie", "sotheby", "bonhams", "phillips", "artnet", "invaluable"]
  const MARKETPLACE_PATTERNS: seq<string> :=
    ["ebay", "etsy", "amazon", "allegro", "olx", "marketplace", "shop", "store"]
  const MUSEUM_PATTERNS: seq<string> :=
    ["museum", "muzeum", "gallery", "galeria", "mnw", "mnk", "polona", "archive", "archiwum"]
  const SOCIAL_PATTERNS: seq<string> :=
    ["facebook", "instagram", "pinterest", "twitter", "reddit", "tumblr"]
  const ACADEMIC_PATTERNS: seq<string> :=
    ["edu", "jstor", "academia", "researchgate", "scholar", "university", "uniwersytet"]

  const SUSPICIOUS_INDICATORS: seq<string> :=
    ["auction", "marketplace", "private-collection", "estate-sale", "anonymous", "untitled", "provenance-unknown"]

  /** A batch scoring at least this much is interesting. */
  const INTEREST_THRESHOLD: nat := 15

  /** What a commercial or suspicious page adds, and what a suspicious domain adds to a match. */
  const PAGE_INTEREST: nat := 10
  const SUSPICIOUS_BONUS: nat := 10

  /** The highest score one match can get: a full match on a suspicious auction domain. */
  const MAX_MATCH_INTEREST: nat := 40

  // ---------------------------------------------------------------------------
  // Domains
  // ---------------------------------------------------------------------------

  /** `_extract_domain`: the lower-cased authority of the URL, `""` when there is none. */
  function ExtractDomain(url: string, netloc: string -> Option<string>): (r: string)
    ensures url == "" || netloc(url).None? ==> r == ""
    ensures IsLower(r)
    ensures url != "" && netloc(url).Some? ==> |r| == |netloc(url).value|
    ensures url != "" && netloc(url).Some? ==> r == Lower(netloc(url).value)
  {
    if url == "" then ""
    else match netloc(url)
      case None => ""
      case Some(authority) =>
        LowerIsLower(authority);
        Lower(authority)
  }

  /** Some pattern of the table occurs in the domain, ignoring letter case. */
  predicate Matches(domain: string, table: seq<string>) {
    exists k :: 0 <= k < |table| && Contains(Lower(domain), table[k])
  }

  /** `_categorize_domain`: the first table, in priority order, with a pattern in the lower-cased domain. */
  function Categorize(domain: string): (c: Category)
    ensures domain == "" ==> c == Other
    ensures c == Auction <==> domain != "" && Matches(domain, AUCTION_PATTERNS)
    ensures c == Marketplace <==> domain != "" && !Matches(domain, AUCTION_PATTERNS)
                                  && Matches(domain, MARKETPLACE_PATTERNS)
    ensures c == Museum <==> domain != "" && !Matches(domain, AUCTION_PATTERNS)
                             && !Matches(domain, MARKETPLACE_PATTERNS) && Matches(domain, MUSEUM_PATTERNS)
    ensures c == Social <==> domain != "" && !Matches(domain, AUCTION_PATTERNS)
                             && !Matches(domain, MARKETPLACE_PATTERNS) && !Matches(domain, MUSEUM_PATTERNS)
                             && Matches(domain, SOCIAL_PATTERNS)
    ensures c == Academic <==> domain != "" && !Matches(domain, AUCTION_PATTERNS)
                               && !Matches(domain, MARKETPLACE_PATTERNS) && !Matches(domain, MUSEUM_PATTERNS)
                               && !Matches(domain, SOCIAL_PATTERNS) && Matches(domain, ACADEMIC_PATTERNS)
    ensures c == Other <==> domain == "" || (!Matches(domain, AUCTION_PATTERNS)
                               && !Matches(domain, MARKETPLACE_PATTERNS) && !Matches(domain, MUSEUM_PATTERNS)
                               && !Matches(domain, SOCIAL_PATTERNS) && !Matches(domain, ACADEMIC_PATTERNS))
  {
    if domain == "" then Other
    else
      var d := Lower(domain);
      if ContainsAny(d, AUCTION_PATTERNS) then Auction
      else if ContainsAny(d, MARKETPLACE_PATTERNS) then Marketplace
      else if ContainsAny(d, MUSEUM_PATTERNS) then Museum
      else if ContainsAny(d, SOCIAL_PATTERNS) then Social
      else if ContainsAny(d, ACADEMIC_PATTERNS) then Academic
      else Other
  }

  /** `_is_suspicious_domain`. */
  predicate IsSuspicious(domain: string) {
    domain != "" && ContainsAny(Lower(domain), SUSPICIOUS_INDICATORS)
  }

  /** Classification ignores letter case. */
  lemma ClassificationIgnoresCase(domain: string)
    ensures Categorize(Lower(domain)) == Categorize(domain)
    ensures IsSuspicious(Lower(domain)) == IsSuspicious(domain)
  {
    LowerIdempotent(domain);
    assert |Lower(domain)| == |domain|;
  }

  /** A later table only counts when no earlier one matches: an auction pattern beats every other. */
  lemma AuctionTakesPriority(domain: string)
    requires domain != "" && ContainsAny(Lower(domain), AUCTION_PATTERNS)
    ensures Categorize(domain) == Auction
  {
  }

  lemma OccursContains(s: string, p: string, k: int)
    requires OccursAt(s, p, k)
    ensures Contains(s, p)
  {
    ContainsIff(s, p);
  }

  /** "www.christies.com" is an auction house's domain. */
  lemma ChristiesIsAuction()
    ensures Categorize("www.christies.com") == Auction
  {
    var d := "www.christies.com";
    assert Lower(d) == d;
    assert d[4..12] == "christie";
    OccursContains(d, "christie", 4);
    assert AUCTION_PATTERNS[1] == "christie";
  }

  /** Text with "auction" in it is an auction domain and suspicious as well. */
  lemma AuctionWordIsSuspicious(domain: string)
    requires Contains(Lower(domain), "auction")
    ensures Categorize(domain) == Auction && IsSuspicious(domain)
  {
    assert AUCTION_PATTERNS[0] == "auction" && SUSPICIOUS_INDICATORS[0] == "auction";
  }

  // ---------------------------------------------------------------------------
  // Interest of one match
  // ---------------------------------------------------------------------------

  function BaseInterest(t: MatchType): nat {
    match t
    case Full => 10
    case Partial => 5
    case Similar => 2
    case Page => 0
  }

  function CategoryBonus(c: Category): nat {
    match c
    case Auction => 20
    case Marketplace => 15
    case Social => 5
    case Museum => 2
    case _ => 0
  }

  /** `_calculate_match_interest`: base score by how it matched, bonus by category, and a suspicion bonus. */
  function MatchInterest(t: MatchType, category: Category, domain: string): (r: nat)
    ensures r <= MAX_MATCH_INTEREST
    ensures r == BaseInterest(t) + CategoryBonus(category) + (if IsSuspicious(domain) then SUSPICIOUS_BONUS else 0)
    ensures category.IsCommercial() && t != Page ==> r >= INTEREST_THRESHOLD
    ensures IsSuspicious(domain) ==> r >= SUSPICIOUS_BONUS
  {
    BaseInterest(t) + CategoryBonus(category) + (if IsSuspicious(domain) then SUSPICIOUS_BONUS else 0)
  }

  /** The ordering of categories by bonus: auction, marketplace, social, museum, the rest. */
  lemma CategoryBonusOrder()
    ensures CategoryBonus(Auction) > CategoryBonus(Marketplace) > CategoryBonus(Social) > CategoryBonus(Museum)
    ensures CategoryBonus(Museum) > CategoryBonus(Academic) == CategoryBonus(Other) == 0
  {
  }

  // ---------------------------------------------------------------------------
  // Inputs and the page lookup
  // ---------------------------------------------------------------------------

  /** An image match of the response; an absent `url` key reads as `""`. */
  datatype RawImage = RawImage(url: string, score: Option<real>)

  /** A page of the response with the images it shows. */
  datatype RawPage = RawPage(url: string, pageTitle: Option<string>,
                             fullMatchingImages: seq<string>, partialMatchingImages: seq<string>)

  datatype RawEntity = RawEntity(description: Option<string>, score: Option<real>)

  /** One entry of the image-to-page lists. */
  datatype PageRef = PageRef(pageUrl: string, pageTitle: string, matchType: MatchType)

  /** One `ref` for each time `url` occurs among `images`. */
  function RefsFor(images: seq<string>, url: string, ref: PageRef): (r: seq<PageRef>)
    ensures forall k :: 0 <= k < |r| ==> r[k] == ref
    ensures r != [] <==> url in images
  {
    if |images| == 0 then []
    else (if images[0] == url then [ref] else []) + RefsFor(images[1..], url, ref)
  }

  /** The page lists `url` among its full or partial matching images. */
  predicate Lists(p: RawPage, url: string) {
    url in p.fullMatchingImages || url in p.partialMatchingImages
  }

  /** What one page contributes to `image_to_page_map[url]`: its full entries, then its partial ones. */
  function RefsOn(p: RawPage, url: string): (r: seq<PageRef>)
    ensures r != [] <==> Lists(p, url)
    ensures r != [] ==> r[0] == PageRef(p.url, p.pageTitle.GetOr(""), if url in p.fullMatchingImages then Full else Partial)
  {
    var title := p.pageTitle.GetOr("");
    RefsFor(p.fullMatchingImages, url, PageRef(p.url, title, Full))
    + RefsFor(p.partialMatchingImages, url, PageRef(p.url, title, Partial))
  }

  /** `image_to_page_map.get(url, [])`, built page by page in input order. */
  function PageRefs(pages: seq<RawPage>, url: string): seq<PageRef> {
    if |pages| == 0 then [] else RefsOn(pages[0], url) + PageRefs(pages[1..], url)
  }

  /** The first entry of the image's page list, if any. */
  function PageInfo(pages: seq<RawPage>, url: string): Option<PageRef> {
    var refs := PageRefs(pages, url);
    if |refs| > 0 then Some(refs[0]) else None
  }

  /** The first page, in input order, that lists `url`. */
  function FirstListing(pages: seq<RawPage>, url: string): (r: Option<nat>)
    ensures r.Some? ==> r.value < |pages| && Lists(pages[r.value], url)
                        && forall i :: 0 <= i < r.value ==> !Lists(pages[i], url)
    ensures r.None? ==> forall i :: 0 <= i < |pages| ==> !Lists(pages[i], url)
  {
    if |pages| == 0 then None
    else if Lists(pages[0], url) then Some(0)
    else match FirstListing(pages[1..], url)
      case None => None
      case Some(i) => Some(i + 1)
  }

  /**
    The page a full or partial match is attributed to is the first page in input
    order that lists its image, as a full match if that page lists it among its full
    matches; no page lists it exactly when there is none.
   */
  lemma {:induction false} PageInfoIsFirstListing(pages: seq<RawPage>, url: string)
    ensures PageInfo(pages, url)
         == match FirstListing(pages, url)
            case None => None
            case Some(i) => Some(PageRef(pages[i].url, pages[i].pageTitle.GetOr(""),
                                         if url in pages[i].fullMatchingImages then Full else Partial))
  {
    if |pages| > 0 {
      PageInfoIsFirstListing(pages[1..], url);
      if !Lists(pages[0], url) {
        assert RefsOn(pages[0], url) == [];
        assert PageRefs(pages, url) == PageRefs(pages[1..], url);
        match FirstListing(pages[1..], url)
        case None =>
        case Some(i) => assert pages[1..][i] == pages[i + 1];
      }
    }
  }

  // ---------------------------------------------------------------------------
  // The matches of one response
  // ---------------------------------------------------------------------------

  /** A full or partial match, with its domain, category and page attribution. */
  function ImageMatch(t: MatchType, img: RawImage, pages: seq<RawPage>, netloc: string -> Option<string>): VisionMatch {
    var domain := ExtractDomain(img.url, netloc);
    var info := PageInfo(pages, img.url);
    VisionMatch(t, img.url, img.score,
                if info.Some? then Some(info.value.pageUrl) else None,
                if info.Some? then Some(info.value.pageTitle) else None,
                domain, Categorize(domain))
  }

  function SimilarMatch(img: RawImage, netloc: string -> Option<string>): VisionMatch {
    var domain := ExtractDomain(img.url, netloc);
    VisionMatch(Similar, img.url, img.score, None, None, domain, Categorize(domain))
  }

  function PageMatch(p: RawPage, netloc: string -> Option<string>): VisionMatch {
    var domain := ExtractDomain(p.url, netloc);
    VisionMatch(Page, "", None, Some(p.url), p.pageTitle, domain, Categorize(domain))
  }

  function ImageMatches(t: MatchType, imgs: seq<RawImage>, pages: seq<RawPage>, netloc: string -> Option<string>)
    : (r: seq<VisionMatch>)
    ensures |r| == |imgs|
    ensures forall k :: 0 <= k < |r| ==> r[k] == ImageMatch(t, imgs[k], pages, netloc)
  {
    seq(|imgs|, k requires 0 <= k < |imgs| => ImageMatch(t, imgs[k], pages, netloc))
  }

  function SimilarMatches(imgs: seq<RawImage>, netloc: string -> Option<string>): (r: seq<VisionMatch>)
    ensures |r| == |imgs|
    ensures forall k :: 0 <= k < |r| ==> r[k] == SimilarMatch(imgs[k], netloc)
  {
    seq(|imgs|, k requires 0 <= k < |imgs| => SimilarMatch(imgs[k], netloc))
  }

  function PageMatches(pages: seq<RawPage>, netloc: string -> Option<string>): (r: seq<VisionMatch>)
    ensures |r| == |pages|
    ensures forall k :: 0 <= k < |r| ==> r[k] == PageMatch(pages[k], netloc)
  {
    seq(|pages|, k requires 0 <= k < |pages| => PageMatch(pages[k], netloc))
  }

  /** `all_matches`: full, then partial, then visually similar, then pages, each in input order. */
  function AllMatches(full: seq<RawImage>, partial: seq<RawImage>, similar: seq<RawImage>, pages: seq<RawPage>,
                      netloc: string -> Option<string>): seq<VisionMatch> {
    ImageMatches(Full, full, pages, netloc) + ImageMatches(Partial, partial, pages, netloc)
    + SimilarMatches(similar, netloc) + PageMatches(pages, netloc)
  }

  /** What one match adds to the batch's interest score. */
  function Contribution(m: VisionMatch): (r: nat)
    ensures r <= MAX_MATCH_INTEREST
    ensures m.matchType == Similar && !m.category.IsCommercial() ==> r == 0
    ensures m.matchType == Page ==> (r == PAGE_INTEREST <==> m.category.IsCommercial() || IsSuspicious(m.domain))
    ensures m.matchType == Page ==> r == 0 || r == PAGE_INTEREST
  {
    match m.matchType
    case Full => MatchInterest(Full, m.category, m.domain)
    case Partial => MatchInterest(Partial, m.category, m.domain)
    case Similar => if m.category.IsCommercial() then MatchInterest(Similar, m.category, m.domain) else 0
    case Page => if m.category.IsCommercial() || IsSuspicious(m.domain) then PAGE_INTEREST else 0
  }

  /** The interest score accumulated over the matches. */
  function InterestOf(ms: seq<VisionMatch>): (r: nat)
    ensures r <= MAX_MATCH_INTEREST * |ms|
  {
    if |ms| == 0 then 0 else Contribution(ms[0]) + InterestOf(ms[1..])
  }

  lemma {:induction false} InterestOfConcat(a: seq<VisionMatch>, b: seq<VisionMatch>)
    ensures InterestOf(a + b) == InterestOf(a) + InterestOf(b)
  {
    if |a| == 0 {
      assert a + b == b;
    } else {
      assert (a + b)[1..] == a[1..] + b;
      InterestOfConcat(a[1..], b);
    }
  }

  /** Any single match is part of the score: the total is at least what it contributes. */
  lemma {:induction false} InterestAtLeastMember(ms: seq<VisionMatch>, k: nat)
    requires k < |ms|
    ensures InterestOf(ms) >= Contribution(ms[k])
  {
    if k > 0 {
      InterestAtLeastMember(ms[1..], k - 1);
    }
  }

  /** The running maximum `best_score` over image scores, an absent score counting as 0. */
  function BestFrom(best: real, imgs: seq<RawImage>): (r: real)
    ensures r >= best
    ensures forall k :: 0 <= k < |imgs| ==> r >= imgs[k].score.GetOr(0.0)
    ensures r == best || exists k :: 0 <= k < |imgs| && r == imgs[k].score.GetOr(0.0)
    decreases |imgs|
  {
    if |imgs| == 0 then best
    else
      var s := imgs[0].score.GetOr(0.0);
      var r := BestFrom(if s > best then s else best, imgs[1..]);
      assert forall k :: 0 < k < |imgs| ==> imgs[k] == imgs[1..][k - 1];
      r
  }

  // ---------------------------------------------------------------------------
  // Per-domain tally of a batch
  // ---------------------------------------------------------------------------

  /** One entry of `domain_counts`: the category of the domain's first match and its number of matches. */
  datatype DomainTally = DomainTally(domain: string, category: Category, count: nat)

  function TallyDomain(t: DomainTally): string { t.domain }

  function IndexOfTally(ts: seq<DomainTally>, d: string): (r: Option<nat>)
    ensures r.Some? ==> r.value < |ts| && ts[r.value].domain == d
    ensures r.None? ==> forall k :: 0 <= k < |ts| ==> ts[k].domain != d
  {
    if |ts| == 0 then None
    else if ts[0].domain == d then Some(0)
    else match IndexOfTally(ts[1..], d)
      case None => None
      case Some(k) => Some(k + 1)
  }

  /** How many of the matches come from domain `d`. */
  function CountDomain(ms: seq<VisionMatch>, d: string): nat {
    if |ms| == 0 then 0
    else CountDomain(ms[..|ms| - 1], d) + (if ms[|ms| - 1].domain == d then 1 else 0)
  }

  /** The category of the first match from domain `d`, if there is one. */
  function FirstCategory(ms: seq<VisionMatch>, d: string): (r: Option<Category>)
    ensures r.Some? <==> CountDomain(ms, d) > 0
  {
    if |ms| == 0 then None
    else
      var earlier := FirstCategory(ms[..|ms| - 1], d);
      if earlier.Some? then earlier
      else if ms[|ms| - 1].domain == d then Some(ms[|ms| - 1].category)
      else None
  }

  /** Some tally entry is for domain `d`. */
  predicate HasTally(ts: seq<DomainTally>, d: string) {
    exists k :: 0 <= k < |ts| && ts[k].domain == d
  }

  /**
    `ts` is the tally of `ms`: one entry per non-empty domain that occurs, each with the
    number of matches from it and the category of its first match.
   */
  ghost predicate TallyOf(ms: seq<VisionMatch>, ts: seq<DomainTally>) {
    && DistinctBy(ts, TallyDomain)
    && (forall k :: 0 <= k < |ts| ==>
          ts[k].domain != "" && ts[k].count == CountDomain(ms, ts[k].domain)
          && FirstCategory(ms, ts[k].domain) == Some(ts[k].category))
    && (forall d :: d != "" && CountDomain(ms, d) > 0 ==> HasTally(ts, d))
  }

  /** The counting loop of `_update_domain_stats`, one match at a time in input order. */
  function Tally(ms: seq<VisionMatch>): seq<DomainTally> {
    if |ms| == 0 then []
    else
      var ts := Tally(ms[..|ms| - 1]);
      var m := ms[|ms| - 1];
      if m.domain == "" then ts
      else match IndexOfTally(ts, m.domain)
        case Some(k) => ts[k := ts[k].(count := ts[k].count + 1)]
        case None => ts + [DomainTally(m.domain, m.category, 1)]
  }

  lemma {:induction false} TallyCorrect(ms: seq<VisionMatch>)
    ensures TallyOf(ms, Tally(ms))
  {
    if |ms| > 0 {
      var init := ms[..|ms| - 1];
      var m := ms[|ms| - 1];
      TallyCorrect(init);
      if m.domain == "" {
        TallySkipsEmpty(ms, init, m);
      } else {
        match IndexOfTally(Tally(init), m.domain)
        case Some(k) => TallyBumps(ms, init, m, k);
        case None => TallyAppends(ms, init, m);
      }
    }
  }

  lemma TallySkipsEmpty(ms: seq<VisionMatch>, init: seq<VisionMatch>, m: VisionMatch)
    requires |ms| > 0 && init == ms[..|ms| - 1] && m == ms[|ms| - 1] && m.domain == ""
    requires TallyOf(init, Tally(init))
    ensures TallyOf(ms, Tally(ms))
  {
    var ts := Tally(init);
    assert Tally(ms) == ts;
    forall d | d != "" ensures CountDomain(ms, d) == CountDomain(init, d) && FirstCategory(ms, d) == FirstCategory(init, d) {
    }
  }

  lemma TallyBumps(ms: seq<VisionMatch>, init: seq<VisionMatch>, m: VisionMatch, k: nat)
    requires |ms| > 0 && init == ms[..|ms| - 1] && m == ms[|ms| - 1] && m.domain != ""
    requires TallyOf(init, Tally(init))
    requires IndexOfTally(Tally(init), m.domain) == Some(k)
    ensures TallyOf(ms, Tally(ms))
  {
    var ts := Tally(init);
    var r := ts[k := ts[k].(count := ts[k].count + 1)];
    assert Tally(ms) == r;
    BumpKeepsTally(ms, ts, k, r);
  }

  /** Counting one more match of an already tallied domain keeps the tally correct. */
  lemma BumpKeepsTally(ms: seq<VisionMatch>, ts: seq<DomainTally>, k: nat, r: seq<DomainTally>)
    requires |ms| > 0 && TallyOf(ms[..|ms| - 1], ts)
    requires k < |ts| && ts[k].domain == ms[|ms| - 1].domain
    requires r == ts[k := ts[k].(count := ts[k].count + 1)]
    ensures TallyOf(ms, r)
  {
    var m := ms[|ms| - 1];
    forall j | 0 <= j < |r|
      ensures r[j].domain != "" && r[j].count == CountDomain(ms, r[j].domain)
      ensures FirstCategory(ms, r[j].domain) == Some(r[j].category)
    {
      LastMatchCounts(ms, r[j].domain);
      if j != k {
        assert ts[j].domain != ts[k].domain;
      }
    }
    assert DistinctBy(r, TallyDomain) by {
      assert forall j :: 0 <= j < |r| ==> r[j].domain == ts[j].domain;
    }
    forall d | d != "" && CountDomain(ms, d) > 0 ensures HasTally(r, d) {
      LastMatchCounts(ms, d);
      if d != m.domain {
        var j :| 0 <= j < |ts| && ts[j].domain == d;
        assert r[j].domain == d;
      } else {
        assert r[k].domain == d;
      }
    }
  }

  lemma TallyAppends(ms: seq<VisionMatch>, init: seq<VisionMatch>, m: VisionMatch)
    requires |ms| > 0 && init == ms[..|ms| - 1] && m == ms[|ms| - 1] && m.domain != ""
    requires TallyOf(init, Tally(init))
    requires IndexOfTally(Tally(init), m.domain).None?
    ensures TallyOf(ms, Tally(ms))
  {
    var ts := Tally(init);
    var r := ts + [DomainTally(m.domain, m.category, 1)];
    assert Tally(ms) == r;
    AppendKeepsTally(ms, ts, r);
  }

  /** The first match of a new domain, tallied at the end, keeps the tally correct. */
  lemma AppendKeepsTally(ms: seq<VisionMatch>, ts: seq<DomainTally>, r: seq<DomainTally>)
    requires |ms| > 0 && TallyOf(ms[..|ms| - 1], ts) && ms[|ms| - 1].domain != ""
    requires forall j :: 0 <= j < |ts| ==> ts[j].domain != ms[|ms| - 1].domain
    requires r == ts + [DomainTally(ms[|ms| - 1].domain, ms[|ms| - 1].category, 1)]
    ensures TallyOf(ms, r)
  {
    var init, m := ms[..|ms| - 1], ms[|ms| - 1];
    assert !HasTally(ts, m.domain);
    assert CountDomain(init, m.domain) == 0;
    forall j | 0 <= j < |r|
      ensures r[j].domain != "" && r[j].count == CountDomain(ms, r[j].domain)
      ensures FirstCategory(ms, r[j].domain) == Some(r[j].category)
    {
      LastMatchCounts(ms, r[j].domain);
      if j < |ts| {
        assert r[j] == ts[j];
      }
    }
    forall d | d != "" && CountDomain(ms, d) > 0 ensures HasTally(r, d) {
      LastMatchCounts(ms, d);
      if d != m.domain {
        var j :| 0 <= j < |ts| && ts[j].domain == d;
        assert r[j].domain == d;
      } else {
        assert r[|ts|].domain == d;
      }
    }
  }

  /** What the last match adds to the count and first category of domain `d`. */
  lemma LastMatchCounts(ms: seq<VisionMatch>, d: string)
    requires |ms| > 0
    ensures var init, m := ms[..|ms| - 1], ms[|ms| - 1];
            && CountDomain(ms, d) == CountDomain(init, d) + (if m.domain == d then 1 else 0)
            && FirstCategory(ms, d) == (if FirstCategory(init, d).Some? then FirstCategory(init, d)
                                        else if m.domain == d then Some(m.category) else None)
  {
  }

  // ---------------------------------------------------------------------------
  // Domain statistics update
  // ---------------------------------------------------------------------------

  /** `list(set(xs))`, written in first-occurrence order: the same elements, each once. */
  function Dedup(xs: seq<string>): (r: seq<string>)
    ensures forall x :: x in r <==> x in xs
    ensures forall i, j :: 0 <= i < j < |r| ==> r[i] != r[j]
  {
    if |xs| == 0 then []
    else
      var earlier := Dedup(xs[..|xs| - 1]);
      assert forall x :: x in xs <==> x in xs[..|xs| - 1] || x == xs[|xs| - 1];
      if xs[|xs| - 1] in earlier then earlier else earlier + [xs[|xs| - 1]]
  }

  /** The statistics row a tally entry leads to, given the domain's existing row. */
  function Bumped(existing: Option<DomainStats>, t: DomainTally, artworkId: string, now: int): DomainStats {
    match existing
    case Some(e) =>
      e.(totalAppearances := e.totalAppearances + t.count,
         artworksFound := Dedup(e.artworksFound + [artworkId]),
         lastSeen := now,
         flaggedSuspicious := if t.category.IsCommercial() then true else e.flaggedSuspicious)
    case None =>
      DomainStats(t.domain, Some(t.category.Name()), t.count, [artworkId], now, now, t.category.IsCommercial())
  }

  /** One iteration of the update loop: read the domain's row, then save the bumped row. */
  function ApplyTally(table: seq<DomainStats>, t: DomainTally, artworkId: string, now: int): (r: seq<DomainStats>)
    ensures FindDomainStats(r, t.domain) == Some(Bumped(FindDomainStats(table, t.domain), t, artworkId, now))
    ensures forall d :: d != t.domain ==> FindDomainStats(r, d) == FindDomainStats(table, d)
    ensures UniqueDomains(table) ==> UniqueDomains(r)
  {
    SaveDomainStats(table, Bumped(FindDomainStats(table, t.domain), t, artworkId, now))
  }

  /** The update loop over the tally entries in order. */
  function ApplyTallies(table: seq<DomainStats>, ts: seq<DomainTally>, artworkId: string, now: int)
    : (r: seq<DomainStats>)
    ensures UniqueDomains(table) ==> UniqueDomains(r)
    decreases |ts|
  {
    if |ts| == 0 then table
    else ApplyTallies(ApplyTally(table, ts[0], artworkId, now), ts[1..], artworkId, now)
  }

  lemma {:induction false} ApplyTalliesEffect(table: seq<DomainStats>, ts: seq<DomainTally>,
                                              artworkId: string, now: int, d: string)
    requires DistinctBy(ts, TallyDomain)
    ensures FindDomainStats(ApplyTallies(table, ts, artworkId, now), d)
         == match IndexOfTally(ts, d)
            case Some(k) => Some(Bumped(FindDomainStats(table, d), ts[k], artworkId, now))
            case None => FindDomainStats(table, d)
    decreases |ts|
  {
    if |ts| > 0 {
      var rest := ts[1..];
      DistinctTail(ts, TallyDomain);
      var table1 := ApplyTally(table, ts[0], artworkId, now);
      ApplyTalliesEffect(table1, rest, artworkId, now, d);
      if d == ts[0].domain {
        assert IndexOfTally(rest, d).None?;
      } else {
        match IndexOfTally(rest, d)
        case Some(k) => assert rest[k] == ts[k + 1];
        case None =>
      }
    }
  }

  /** `_update_domain_stats`: tally the batch's domains, then upsert one row per domain. */
  function UpdateDomainStats(table: seq<DomainStats>, artworkId: string, ms: seq<VisionMatch>, now: int)
    : (r: seq<DomainStats>)
    ensures UniqueDomains(table) ==> UniqueDomains(r)
  {
    ApplyTallies(table, Tally(ms), artworkId, now)
  }

  /**
    What the update does to one domain's row. A domain with no match in the batch, and
    the empty domain, keep their row (or absence of one). Any other domain of the batch
    has a row afterwards whose appearances grew by exactly its number of matches, whose
    artworks are the previous ones plus this artwork, each once, whose last-seen time is
    now, whose first-seen time and category are kept (a new row takes now and the
    category of the domain's first match), and which is flagged exactly when it was
    flagged before or that category is auction or marketplace.
   */
  lemma DomainStatsUpdate(table: seq<DomainStats>, artworkId: string, ms: seq<VisionMatch>, now: int, d: string)
    ensures var before := FindDomainStats(table, d);
            var after := FindDomainStats(UpdateDomainStats(table, artworkId, ms, now), d);
            && (d == "" || CountDomain(ms, d) == 0 ==> after == before)
            && (d != "" && CountDomain(ms, d) > 0 ==>
                  && after.Some? && after.value.domain == d
                  && after.value.totalAppearances
                     == (if before.Some? then before.value.totalAppearances else 0) + CountDomain(ms, d)
                  && (forall a :: a in after.value.artworksFound <==>
                                  a == artworkId || (before.Some? && a in before.value.artworksFound))
                  && (forall i, j :: 0 <= i < j < |after.value.artworksFound| ==>
                                     after.value.artworksFound[i] != after.value.artworksFound[j])
                  && after.value.lastSeen == now
                  && after.value.firstSeen == (if before.Some? then before.value.firstSeen else now)
                  && after.value.category
                     == (if before.Some? then before.value.category else Some(FirstCategory(ms, d).value.Name()))
                  && after.value.flaggedSuspicious
                     == ((before.Some? && before.value.flaggedSuspicious) || FirstCategory(ms, d).value.IsCommercial()))
  {
    var ts := Tally(ms);
    TallyCorrect(ms);
    ApplyTalliesEffect(table, ts, artworkId, now, d);
    match IndexOfTally(ts, d)
    case Some(k) =>
      assert ts[k].domain == d;
    case None =>
      if d != "" && CountDomain(ms, d) > 0 {
        assert false;
      }
  }

  // ---------------------------------------------------------------------------
  // Interest of a whole response
  // ---------------------------------------------------------------------------

  lemma ImageMatchesConcat(t: MatchType, a: seq<RawImage>, b: seq<RawImage>, pages: seq<RawPage>,
                           netloc: string -> Option<string>)
    ensures ImageMatches(t, a + b, pages, netloc) == ImageMatches(t, a, pages, netloc) + ImageMatches(t, b, pages, netloc)
  {
  }

  lemma SimilarMatchesConcat(a: seq<RawImage>, b: seq<RawImage>, netloc: string -> Option<string>)
    ensures SimilarMatches(a + b, netloc) == SimilarMatches(a, netloc) + SimilarMatches(b, netloc)
  {
  }

  lemma PageMatchesConcat(a: seq<RawPage>, b: seq<RawPage>, netloc: string -> Option<string>)
    ensures PageMatches(a + b, netloc) == PageMatches(a, netloc) + PageMatches(b, netloc)
  {
  }

  /** Page attribution never changes what a full or partial match scores. */
  lemma {:induction false} ImageInterestIgnoresPages(t: MatchType, imgs: seq<RawImage>, p1: seq<RawPage>, p2: seq<RawPage>,
                                                     netloc: string -> Option<string>)
    ensures InterestOf(ImageMatches(t, imgs, p1, netloc)) == InterestOf(ImageMatches(t, imgs, p2, netloc))
  {
    if |imgs| > 0 {
      assert ImageMatches(t, imgs, p1, netloc)[1..] == ImageMatches(t, imgs[1..], p1, netloc);
      assert ImageMatches(t, imgs, p2, netloc)[1..] == ImageMatches(t, imgs[1..], p2, netloc);
      ImageInterestIgnoresPages(t, imgs[1..], p1, p2, netloc);
    }
  }

  /** The score is the sum of what the four lists contribute. */
  lemma InterestOfAll(full: seq<RawImage>, partial: seq<RawImage>, similar: seq<RawImage>, pages: seq<RawPage>,
                      netloc: string -> Option<string>)
    ensures InterestOf(AllMatches(full, partial, similar, pages, netloc))
         == InterestOf(ImageMatches(Full, full, pages, netloc)) + InterestOf(ImageMatches(Partial, partial, pages, netloc))
            + InterestOf(SimilarMatches(similar, netloc)) + InterestOf(PageMatches(pages, netloc))
  {
    var f := ImageMatches(Full, full, pages, netloc);
    var p := ImageMatches(Partial, partial, pages, netloc);
    var v := SimilarMatches(similar, netloc);
    var g := PageMatches(pages, netloc);
    InterestOfConcat(f + p + v, g);
    InterestOfConcat(f + p, v);
    InterestOfConcat(f, p);
  }

  /** Every contribution is non-negative, so appending inputs to any of the lists never lowers the score. */
  lemma MoreInputsNeverLowerInterest(full: seq<RawImage>, partial: seq<RawImage>, similar: seq<RawImage>, pages: seq<RawPage>,
                                     moreFull: seq<RawImage>, morePartial: seq<RawImage>, moreSimilar: seq<RawImage>,
                                     morePages: seq<RawPage>, netloc: string -> Option<string>)
    ensures InterestOf(AllMatches(full + moreFull, partial + morePartial, similar + moreSimilar, pages + morePages, netloc))
         >= InterestOf(AllMatches(full, partial, similar, pages, netloc))
  {
    var pages' := pages + morePages;
    InterestOfAll(full, partial, similar, pages, netloc);
    InterestOfAll(full + moreFull, partial + morePartial, similar + moreSimilar, pages', netloc);
    ImageMatchesConcat(Full, full, moreFull, pages', netloc);
    InterestOfConcat(ImageMatches(Full, full, pages', netloc), ImageMatches(Full, moreFull, pages', netloc));
    ImageInterestIgnoresPages(Full, full, pages, pages', netloc);
    ImageMatchesConcat(Partial, partial, morePartial, pages', netloc);
    InterestOfConcat(ImageMatches(Partial, partial, pages', netloc), ImageMatches(Partial, morePartial, pages', netloc));
    ImageInterestIgnoresPages(Partial, partial, pages, pages', netloc);
    SimilarMatchesConcat(similar, moreSimilar, netloc);
    InterestOfConcat(SimilarMatches(similar, netloc), SimilarMatches(moreSimilar, netloc));
    PageMatchesConcat(pages, morePages, netloc);
    InterestOfConcat(PageMatches(pages, netloc), PageMatches(morePages, netloc));
  }

  /** One full, partial or visually similar image on an auction or marketplace domain makes the response interesting. */
  lemma CommercialImageMakesInteresting(full: seq<RawImage>, partial: seq<RawImage>, similar: seq<RawImage>,
                                        pages: seq<RawPage>, netloc: string -> Option<string>, img: RawImage)
    requires img in full || img in partial || img in similar
    requires Categorize(ExtractDomain(img.url, netloc)).IsCommercial()
    ensures InterestOf(AllMatches(full, partial, similar, pages, netloc)) >= INTEREST_THRESHOLD
  {
    InterestOfAll(full, partial, similar, pages, netloc);
    if img in full {
      var k :| 0 <= k < |full| && full[k] == img;
      CommercialImageListInteresting(Full, full, pages, netloc, k);
    } else if img in partial {
      var k :| 0 <= k < |partial| && partial[k] == img;
      CommercialImageListInteresting(Partial, partial, pages, netloc, k);
    } else {
      var k :| 0 <= k < |similar| && similar[k] == img;
      CommercialSimilarListInteresting(similar, netloc, k);
    }
  }

  lemma CommercialImageListInteresting(t: MatchType, imgs: seq<RawImage>, pages: seq<RawPage>,
                                       netloc: string -> Option<string>, k: nat)
    requires (t == Full || t == Partial) && k < |imgs|
    requires Categorize(ExtractDomain(imgs[k].url, netloc)).IsCommercial()
    ensures InterestOf(ImageMatches(t, imgs, pages, netloc)) >= INTEREST_THRESHOLD
  {
    InterestAtLeastMember(ImageMatches(t, imgs, pages, netloc), k);
  }

  lemma CommercialSimilarListInteresting(imgs: seq<RawImage>, netloc: string -> Option<string>, k: nat)
    requires k < |imgs| && Categorize(ExtractDomain(imgs[k].url, netloc)).IsCommercial()
    ensures InterestOf(SimilarMatches(imgs, netloc)) >= INTEREST_THRESHOLD
  {
    InterestAtLeastMember(SimilarMatches(imgs, netloc), k);
  }

  /** A page alone never makes a response interesting: it adds at most 10. */
  lemma SinglePageIsNotEnough(page: RawPage, netloc: string -> Option<string>)
    ensures InterestOf(AllMatches([], [], [], [page], netloc)) < INTEREST_THRESHOLD
  {
    InterestOfAll([], [], [], [page], netloc);
    assert PageMatches([page], netloc) == [PageMatch(page, netloc)];
  }

  // ---------------------------------------------------------------------------
  // Analysing one response
  // ---------------------------------------------------------------------------

  /** The web entities as recorded: an absent description reads as `""`. */
  function Entities(raw: seq<RawEntity>): (r: seq<VisionEntity>)
    ensures |r| == |raw|
    ensures forall k :: 0 <= k < |r| ==> r[k].description == raw[k].description.GetOr("") && r[k].score == raw[k].score
  {
    seq(|raw|, k requires 0 <= k < |raw| => VisionEntity(raw[k].description.GetOr(""), raw[k].score))
  }

  /** The request `analyze_and_track_results` returns and the store it leaves. */
  datatype Analysis = Analysis(request: VisionRequest, store: VisionStore)

  /**
    `analyze_and_track_results`. `requestId` and `now` are the identifier and clock
    reading the request and new statistics rows take by default.
   */
  function Analyze(store: VisionStore, artworkId: string, requestId: string, now: int,
                   full: seq<RawImage>, partial: seq<RawImage>, similar: seq<RawImage>, pages: seq<RawPage>,
                   webEntities: seq<RawEntity>, imageSource: string, processingTimeMs: Option<int>,
                   netloc: string -> Option<string>): (a: Analysis)
    ensures var q := a.request;
            && q.id == requestId && q.artworkId == artworkId && q.timestamp == now
            && q.imageSource == imageSource && q.processingTimeMs == processingTimeMs
            && q.totalFullMatches == |full| && q.totalPartialMatches == |partial|
            && q.totalSimilarImages == |similar| && q.totalPagesWithImage == |pages|
            && q.apiCostUnits == DEFAULT_API_COST_UNITS
    ensures a.request.hasInterestingResults
            <==> InterestOf(AllMatches(full, partial, similar, pages, netloc)) >= INTEREST_THRESHOLD
    ensures var b := a.request.bestMatchScore;
            && b.Some? && b.value >= 0.0
            && (forall img :: img in full + partial ==> b.value >= img.score.GetOr(0.0))
            && (b.value == 0.0 || exists img :: img in full + partial && b.value == img.score.GetOr(0.0))
    ensures a.request.hasInterestingResults ==>
              && a.request.matches == AllMatches(full, partial, similar, pages, netloc)
              && a.request.entities == Entities(webEntities)
    ensures !a.request.hasInterestingResults ==> a.request.matches == [] && a.request.entities == []
    ensures a.store.requests == store.requests + [a.request]
    ensures !a.request.hasInterestingResults ==> a.store.domainStats == store.domainStats
    ensures a.request.hasInterestingResults ==>
              a.store.domainStats == UpdateDomainStats(store.domainStats, artworkId, a.request.matches, now)
    ensures UniqueDomains(store.domainStats) ==> UniqueDomains(a.store.domainStats)
  {
    var all := AllMatches(full, partial, similar, pages, netloc);
    var interesting := InterestOf(all) >= INTEREST_THRESHOLD;
    var best := BestFrom(0.0, full + partial);
    var request := VisionRequest(requestId, artworkId, now, imageSource, |full|, |partial|, |similar|, |pages|,
                                 Some(best), interesting, DEFAULT_API_COST_UNITS, processingTimeMs,
                                 if interesting then all else [], if interesting then Entities(webEntities) else []);
    var saved := SaveRequest(store, request);
    assert saved.requests[|store.requests|] == request;
    var stats := if interesting then UpdateDomainStats(saved.domainStats, artworkId, all, now) else saved.domainStats;
    Analysis(request, saved.(domainStats := stats))
  }

  /** A response with no matches, pages or entities is recorded as an uninteresting request and nothing else. */
  lemma EmptyResponse(store: VisionStore, artworkId: string, requestId: string, now: int, imageSource: string,
                      processingTimeMs: Option<int>, netloc: string -> Option<string>)
    ensures var a := Analyze(store, artworkId, requestId, now, [], [], [], [], [], imageSource, processingTimeMs, netloc);
            && !a.request.hasInterestingResults
            && a.request.bestMatchScore == Some(0.0)
            && a.store.domainStats == store.domainStats
            && |a.store.requests| == |store.requests| + 1
  {
    InterestOfAll([], [], [], [], netloc);
  }

  /** Each analysis is billed one unit: the running API cost grows by exactly one. */
  lemma AnalysisCostsOneUnit(store: VisionStore, artworkId: string, requestId: string, now: int,
                             full: seq<RawImage>, partial: seq<RawImage>, similar: seq<RawImage>, pages: seq<RawPage>,
                             webEntities: seq<RawEntity>, imageSource: string, processingTimeMs: Option<int>,
                             netloc: string -> Option<string>)
    ensures var a := Analyze(store, artworkId, requestId, now, full, partial, similar, pages, webEntities,
                             imageSource, processingTimeMs, netloc);
            TotalApiCost(a.store.requests) == TotalApiCost(store.requests) + 1
  {
    var a := Analyze(store, artworkId, requestId, now, full, partial, similar, pages, webEntities,
                     imageSource, processingTimeMs, netloc);
    var rs := a.store.requests;
    assert rs[..|rs| - 1] == store.requests;
  }
}
