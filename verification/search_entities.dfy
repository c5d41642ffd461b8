/**
  The report of one multi-source image search: the sources asked, every result
  they returned, and a running count of the results that located the image.
  Identifiers are strings and timestamps plain integers supplied by the caller.
 */
module SearchEntities {
  import opened Wrappers
  import opened Sequences

  datatype SearchSource = GoogleImages | TinEye | AuctionHouse | MuseumDatabase | ArtMarketplace

  datatype SearchStatus = Succeeded | Failed | NoResults | ApiError

  datatype ImageSearchResult = ImageSearchResult(
    id: string,
    source: SearchSource,
    status: SearchStatus,
    urlFound: Option<string>,
    pageTitle: Option<string>,
    pageUrl: Option<string>,
    similarityScore: Option<real>,
    timestamp: int,
    errorMessage: Option<string>)

  datatype ImageSearchReport = ImageSearchReport(
    id: string,
    imagePath: string,
    imageHash: Option<string>,
    sourcesSearched: seq<SearchSource>,
    resultsFound: seq<ImageSearchResult>,
    totalMatches: int,
    searchStarted: int,
    searchCompleted: Option<int>)

  /** A result that located the image: a successful search with a non-empty URL. */
  predicate IsMatch(r: ImageSearchResult) {
    r.status == Succeeded && r.urlFound.Some? && r.urlFound.value != ""
  }

  /** The number of located results in `results`. */
  function MatchCount(results: seq<ImageSearchResult>): (n: nat)
    ensures n <= |results|
    ensures n == 0 <==> forall k :: 0 <= k < |results| ==> !IsMatch(results[k])
  {
    if |results| == 0 then 0
    else MatchCount(results[..|results| - 1]) + (if IsMatch(results[|results| - 1]) then 1 else 0)
  }

  /** The report's counter agrees with the results it holds. */
  predicate CountConsistent(report: ImageSearchReport) {
    report.totalMatches == MatchCount(report.resultsFound)
  }

  /** A fresh report: nothing searched, nothing found, not completed. */
  function NewReport(id: string, imagePath: string, started: int): (r: ImageSearchReport)
    ensures CountConsistent(r) && r.resultsFound == [] && r.sourcesSearched == []
    ensures r.searchCompleted.None? && r.imagePath == imagePath
  {
    ImageSearchReport(id, imagePath, None, [], [], 0, started, None)
  }

  /**
    `add_result`: the result is always appended; the counter moves by one exactly
    when the result located the image. Nothing else changes.
   */
  function AddResult(report: ImageSearchReport, result: ImageSearchResult): (r: ImageSearchReport)
    ensures r.resultsFound == report.resultsFound + [result]
    ensures r.totalMatches == report.totalMatches + 1 <==> IsMatch(result)
    ensures r.totalMatches == report.totalMatches || r.totalMatches == report.totalMatches + 1
    ensures r.(resultsFound := report.resultsFound, totalMatches := report.totalMatches) == report
  {
    report.(resultsFound := report.resultsFound + [result],
            totalMatches := report.totalMatches + if IsMatch(result) then 1 else 0)
  }

  /** Adding a result keeps the counter equal to the number of located results. */
  lemma AddResultKeepsCount(report: ImageSearchReport, result: ImageSearchResult)
    requires CountConsistent(report)
    ensures CountConsistent(AddResult(report, result))
    ensures AddResult(report, result).totalMatches <= |AddResult(report, result).resultsFound|
  {
    var rs := report.resultsFound + [result];
    assert rs[..|rs| - 1] == report.resultsFound;
  }

  /** Adding a sequence of results one by one, in order. */
  function AddResults(report: ImageSearchReport, results: seq<ImageSearchResult>): (r: ImageSearchReport)
    decreases |results|
  {
    if |results| == 0 then report
    else AddResults(AddResult(report, results[0]), results[1..])
  }

  /** Adding results one by one appends them all and keeps the counter consistent. */
  lemma {:induction false} AddResultsEffect(report: ImageSearchReport, results: seq<ImageSearchResult>)
    requires CountConsistent(report)
    ensures AddResults(report, results).resultsFound == report.resultsFound + results
    ensures CountConsistent(AddResults(report, results))
    ensures AddResults(report, results).sourcesSearched == report.sourcesSearched
    ensures AddResults(report, results).searchCompleted == report.searchCompleted
    ensures var r := AddResults(report, results);
            r.id == report.id && r.imagePath == report.imagePath && r.searchStarted == report.searchStarted
    decreases |results|
  {
    if |results| > 0 {
      AddResultKeepsCount(report, results[0]);
      AddResultsEffect(AddResult(report, results[0]), results[1..]);
      assert report.resultsFound + [results[0]] + results[1..] == report.resultsFound + results;
    }
  }

  /** `get_results_by_source`: the results from `source`, in the order they were added. */
  function ResultsBySource(results: seq<ImageSearchResult>, source: SearchSource): (r: seq<ImageSearchResult>)
    ensures |r| <= |results|
    ensures forall x :: x in r <==> x in results && x.source == source
  {
    if |results| == 0 then []
    else (if results[0].source == source then [results[0]] else []) + ResultsBySource(results[1..], source)
  }

  function FromSource(source: SearchSource): ImageSearchResult -> bool {
    (x: ImageSearchResult) => x.source == source
  }

  /**
    The per-source view is the generic order-keeping filter, so it keeps every result
    from the source, each as often as it was added, in the order they were added.
   */
  lemma {:induction false} ResultsBySourceIsFilter(results: seq<ImageSearchResult>, source: SearchSource)
    ensures ResultsBySource(results, source) == Filter(results, FromSource(source))
    ensures IsSubsequence(ResultsBySource(results, source), results)
    ensures forall x :: multiset(ResultsBySource(results, source))[x] == if x.source == source then multiset(results)[x] else 0
  {
    if |results| > 0 {
      ResultsBySourceIsFilter(results[1..], source);
    }
    FilterIsSubsequence(results, FromSource(source));
    FilterMultiplicity(results, FromSource(source));
  }

  /** Filtering by source distributes over adding results: a later result lands after the earlier ones. */
  lemma {:induction false} ResultsBySourceAppend(a: seq<ImageSearchResult>, b: seq<ImageSearchResult>, source: SearchSource)
    ensures ResultsBySource(a + b, source) == ResultsBySource(a, source) + ResultsBySource(b, source)
  {
    if |a| == 0 {
      assert a + b == b;
    } else {
      assert (a + b)[0] == a[0];
      assert (a + b)[1..] == a[1..] + b;
      ResultsBySourceAppend(a[1..], b, source);
      var head := if a[0].source == source then [a[0]] else [];
      assert head + (ResultsBySource(a[1..], source) + ResultsBySource(b, source))
          == (head + ResultsBySource(a[1..], source)) + ResultsBySource(b, source);
    }
  }

  /** Every result belongs to exactly one source, so the per-source views account for all of them. */
  lemma {:induction false} ResultsBySourceCover(results: seq<ImageSearchResult>)
    ensures |ResultsBySource(results, GoogleImages)| + |ResultsBySource(results, TinEye)|
            + |ResultsBySource(results, AuctionHouse)| + |ResultsBySource(results, MuseumDatabase)|
            + |ResultsBySource(results, ArtMarketplace)| == |results|
  {
    if |results| > 0 {
      ResultsBySourceCover(results[1..]);
    }
  }

  /** `was_found`: on a consistent report, exactly when some result located the image. */
  predicate WasFound(report: ImageSearchReport): (b: bool)
    ensures CountConsistent(report) ==>
              (b <==> exists k :: 0 <= k < |report.resultsFound| && IsMatch(report.resultsFound[k]))
  {
    report.totalMatches > 0
  }
}
