/**
  The multi-source image search driver. A provider is seen through what the
  service asks of it: its source, whether it reports itself available, and the
  results a query for this image returns.
 */
module ImageSearchService {
  import opened Wrappers
  import opened SearchEntities
  import opened Sequences

  datatype Provider = Provider(source: SearchSource, available: bool, results: seq<ImageSearchResult>)

  predicate IsAvailable(p: Provider) {
    p.available
  }

  /**
    The providers that report themselves available: all of them, each as often as it
    is configured, in configuration order.
   */
  function AvailableProviders(providers: seq<Provider>): (r: seq<Provider>)
    ensures |r| <= |providers|
    ensures forall p :: p in r <==> p in providers && p.available
    ensures IsSubsequence(r, providers)
    ensures forall p :: multiset(r)[p] == if p.available then multiset(providers)[p] else 0
  {
    FilterIsSubsequence(providers, IsAvailable);
    FilterMultiplicity(providers, IsAvailable);
    Filter(providers, IsAvailable)
  }

  /** The source of each provider, position by position. */
  function SourcesOf(providers: seq<Provider>): seq<SearchSource> {
    if |providers| == 0 then []
    else SourcesOf(providers[..|providers| - 1]) + [providers[|providers| - 1].source]
  }

  lemma {:induction false} SourcesOfIndex(providers: seq<Provider>)
    ensures |SourcesOf(providers)| == |providers|
    ensures forall k :: 0 <= k < |providers| ==> SourcesOf(providers)[k] == providers[k].source
  {
    if |providers| > 0 {
      SourcesOfIndex(providers[..|providers| - 1]);
    }
  }

  /** The results of the providers, one provider's list after the other's. */
  function ResultsOf(providers: seq<Provider>): seq<ImageSearchResult> {
    if |providers| == 0 then []
    else ResultsOf(providers[..|providers| - 1]) + providers[|providers| - 1].results
  }

  /** A result is reported exactly when one of the providers returned it. */
  lemma {:induction false} ResultsOfMembers(providers: seq<Provider>)
    ensures forall x :: x in ResultsOf(providers) <==> exists k :: 0 <= k < |providers| && x in providers[k].results
  {
    if |providers| > 0 {
      var front := providers[..|providers| - 1];
      ResultsOfMembers(front);
      assert forall k :: 0 <= k < |front| ==> front[k] == providers[k];
    }
  }

  /** `get_available_sources`: the sources of the available providers, in order. */
  function GetAvailableSources(providers: seq<Provider>): (r: seq<SearchSource>)
    ensures |r| <= |providers|
    ensures forall s :: s in r <==> exists k :: 0 <= k < |providers| && providers[k].available && providers[k].source == s
  {
    var available := AvailableProviders(providers);
    SourcesOfAvailable(providers, available);
    SourcesOf(available)
  }

  lemma SourcesOfAvailable(providers: seq<Provider>, available: seq<Provider>)
    requires |available| <= |providers|
    requires forall p :: p in available <==> p in providers && p.available
    ensures |SourcesOf(available)| <= |providers|
    ensures forall s :: s in SourcesOf(available) <==>
              exists k :: 0 <= k < |providers| && providers[k].available && providers[k].source == s
  {
    SourcesOfIndex(available);
    assert forall s :: s in SourcesOf(available) <==> exists p :: p in available && p.source == s;
  }

  /** One turn of the search loop: record the provider's source, then add each of its results. */
  function QueryProvider(report: ImageSearchReport, provider: Provider): ImageSearchReport {
    AddResults(report.(sourcesSearched := report.sourcesSearched + [provider.source]), provider.results)
  }

  lemma QueryProviderEffect(report: ImageSearchReport, provider: Provider)
    requires CountConsistent(report)
    ensures var r := QueryProvider(report, provider);
            && r.sourcesSearched == report.sourcesSearched + [provider.source]
            && r.resultsFound == report.resultsFound + provider.results
            && CountConsistent(r)
            && r.searchCompleted == report.searchCompleted
            && r.id == report.id && r.imagePath == report.imagePath && r.searchStarted == report.searchStarted
  {
    AddResultsEffect(report.(sourcesSearched := report.sourcesSearched + [provider.source]), provider.results);
  }

  /** What the search loop keeps after querying the first `i` available providers. */
  predicate LoopState(report: ImageSearchReport, available: seq<Provider>, i: nat,
                      reportId: string, imagePath: string, started: int)
    requires i <= |available|
  {
    && report.sourcesSearched == SourcesOf(available[..i])
    && report.resultsFound == ResultsOf(available[..i])
    && CountConsistent(report)
    && report.searchCompleted.None?
    && report.id == reportId && report.imagePath == imagePath && report.searchStarted == started
  }

  /** Querying provider `i` carries the loop state from the first `i` providers to the first `i + 1`. */
  lemma QueryStep(report: ImageSearchReport, available: seq<Provider>, i: nat,
                  reportId: string, imagePath: string, started: int)
    requires i < |available|
    requires LoopState(report, available, i, reportId, imagePath, started)
    ensures available[..i + 1] == available[..i] + [available[i]]
    ensures LoopState(QueryProvider(report, available[i]), available, i + 1, reportId, imagePath, started)
  {
    var provider := available[i];
    QueryProviderEffect(report, provider);
    assert available[..i + 1][..i] == available[..i];
    assert ResultsOf(available[..i + 1]) == ResultsOf(available[..i]) + provider.results;
    assert SourcesOf(available[..i + 1]) == SourcesOf(available[..i]) + [provider.source];
  }

  /**
    `search_image`: every available provider is queried once, in order, its source
    recorded and each of its results added to the report; `queried` is the list of
    providers the search asked for results. `completed` is the completion time.
   */
  method SearchImage(providers: seq<Provider>, reportId: string, imagePath: string, started: int, completed: int)
    returns (report: ImageSearchReport, queried: seq<Provider>)
    ensures queried == AvailableProviders(providers)
    ensures forall p :: p in queried ==> p.available
    ensures report.sourcesSearched == GetAvailableSources(providers)
    ensures report.resultsFound == ResultsOf(queried)
    ensures CountConsistent(report)
    ensures report.searchCompleted == Some(completed)
    ensures report.id == reportId && report.imagePath == imagePath && report.searchStarted == started
  {
    report := NewReport(reportId, imagePath, started);
    var available := AvailableProviders(providers);
    queried := [];
    var i := 0;
    while i < |available|
      invariant 0 <= i <= |available|
      invariant queried == available[..i]
      invariant LoopState(report, available, i, reportId, imagePath, started)
    {
      QueryStep(report, available, i, reportId, imagePath, started);
      report := QueryProvider(report, available[i]);
      queried := queried + [available[i]];
      i := i + 1;
    }
    assert available[..i] == available;
    report := report.(searchCompleted := Some(completed));
  }
}
