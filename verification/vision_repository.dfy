/**
  The tracking repository over in-memory tables: saved requests (with their match
  and entity rows) and one statistics row per domain. A SQL `ORDER BY` on equal
  keys is resolved in table order.
 */
module VisionRepository {
  import opened Wrappers
  import opened StableSort
  import opened Sequences
  import opened VisionEntities

  datatype VisionStore = VisionStore(requests: seq<VisionRequest>, domainStats: seq<DomainStats>)

  function DomainOf(s: DomainStats): string { s.domain }

  /** The `domain` column is unique: `save_domain_stats` is the only writer and it upserts by domain. */
  predicate UniqueDomains(table: seq<DomainStats>) {
    DistinctBy(table, DomainOf)
  }

  /** The request as stored: its match and entity rows only when the results were interesting. */
  function Persisted(request: VisionRequest): VisionRequest {
    if request.hasInterestingResults then request else request.(matches := [], entities := [])
  }

  /** `save_request`. */
  function SaveRequest(store: VisionStore, request: VisionRequest): (r: VisionStore)
    ensures r.domainStats == store.domainStats
    ensures |r.requests| == |store.requests| + 1 && r.requests[..|store.requests|] == store.requests
    ensures var row := r.requests[|store.requests|];
            && row.(matches := request.matches, entities := request.entities) == request
            && (row.matches != [] || row.entities != [] ==> request.hasInterestingResults)
            && (request.hasInterestingResults ==> row == request)
  {
    store.(requests := store.requests + [Persisted(request)])
  }

  /** `SUM(api_cost_units)`, 0 for no rows. */
  function TotalApiCost(requests: seq<VisionRequest>): int {
    if |requests| == 0 then 0 else TotalApiCost(requests[..|requests| - 1]) + requests[|requests| - 1].apiCostUnits
  }

  /** `get_total_api_cost`: saving a request adds exactly its cost units. */
  lemma TotalApiCostAfterSave(store: VisionStore, request: VisionRequest)
    ensures TotalApiCost(SaveRequest(store, request).requests) == TotalApiCost(store.requests) + request.apiCostUnits
  {
    var rs := SaveRequest(store, request).requests;
    assert rs[..|rs| - 1] == store.requests;
  }

  lemma {:induction false} TotalApiCostOfDefaults(requests: seq<VisionRequest>)
    requires forall k :: 0 <= k < |requests| ==> requests[k].apiCostUnits == DEFAULT_API_COST_UNITS
    ensures TotalApiCost(requests) == |requests|
  {
    if |requests| > 0 {
      TotalApiCostOfDefaults(requests[..|requests| - 1]);
    }
  }

  /** `find_domain_stats`: the row for the domain, if any. */
  function FindDomainStats(table: seq<DomainStats>, domain: string): (r: Option<DomainStats>)
    ensures r.Some? ==> r.value in table && r.value.domain == domain
    ensures r.None? ==> forall k :: 0 <= k < |table| ==> table[k].domain != domain
  {
    if |table| == 0 then None
    else if table[0].domain == domain then Some(table[0])
    else FindDomainStats(table[1..], domain)
  }

  function IndexOfDomain(table: seq<DomainStats>, domain: string): (r: Option<nat>)
    ensures r.Some? ==> r.value < |table| && table[r.value].domain == domain
                        && forall k :: 0 <= k < r.value ==> table[k].domain != domain
    ensures r.None? ==> forall k :: 0 <= k < |table| ==> table[k].domain != domain
  {
    if |table| == 0 then None
    else if table[0].domain == domain then Some(0)
    else match IndexOfDomain(table[1..], domain)
      case None => None
      case Some(k) => Some(k + 1)
  }

  /**
    The row `save_domain_stats` leaves for `stats.domain`: a new row as given, or the
    existing row with the counters, artworks, last-seen time and flag overwritten,
    the first-seen time kept, and the category replaced only by a non-empty one.
   */
  function Upserted(existing: Option<DomainStats>, stats: DomainStats): DomainStats {
    match existing
    case None => stats
    case Some(e) =>
      e.(totalAppearances := stats.totalAppearances,
         artworksFound := stats.artworksFound,
         lastSeen := stats.lastSeen,
         flaggedSuspicious := stats.flaggedSuspicious,
         category := if Truthy(stats.category) then stats.category else e.category)
  }

  /** `save_domain_stats`. */
  function SaveDomainStats(table: seq<DomainStats>, stats: DomainStats): (r: seq<DomainStats>)
    ensures FindDomainStats(r, stats.domain) == Some(Upserted(FindDomainStats(table, stats.domain), stats))
    ensures forall d :: d != stats.domain ==> FindDomainStats(r, d) == FindDomainStats(table, d)
    ensures UniqueDomains(table) ==> UniqueDomains(r)
  {
    match IndexOfDomain(table, stats.domain)
    case None =>
      AppendRow(table, stats);
      table + [stats]
    case Some(k) =>
      FindAtFirstIndex(table, k);
      ReplaceRow(table, k, Upserted(Some(table[k]), stats));
      table[k := Upserted(Some(table[k]), stats)]
  }

  lemma {:induction false} FindAtFirstIndex(table: seq<DomainStats>, k: nat)
    requires k < |table| && forall x :: 0 <= x < k ==> table[x].domain != table[k].domain
    ensures FindDomainStats(table, table[k].domain) == Some(table[k])
  {
    if k > 0 {
      FindAtFirstIndex(table[1..], k - 1);
    }
  }

  lemma {:induction false} FindAppended(table: seq<DomainStats>, row: DomainStats, d: string)
    ensures FindDomainStats(table + [row], d)
         == (if FindDomainStats(table, d).Some? then FindDomainStats(table, d)
             else if row.domain == d then Some(row) else None)
  {
    if |table| > 0 {
      assert (table + [row])[1..] == table[1..] + [row];
      FindAppended(table[1..], row, d);
    } else {
      assert [row][1..] == [];
    }
  }

  lemma AppendRow(table: seq<DomainStats>, row: DomainStats)
    requires forall k :: 0 <= k < |table| ==> table[k].domain != row.domain
    ensures FindDomainStats(table + [row], row.domain) == Some(row)
    ensures forall d :: d != row.domain ==> FindDomainStats(table + [row], d) == FindDomainStats(table, d)
    ensures UniqueDomains(table) ==> UniqueDomains(table + [row])
  {
    FindAppended(table, row, row.domain);
    forall d | d != row.domain ensures FindDomainStats(table + [row], d) == FindDomainStats(table, d) {
      FindAppended(table, row, d);
    }
    var r := table + [row];
    assert forall k :: 0 <= k < |table| ==> r[k] == table[k];
  }

  lemma {:induction false} FindReplaced(table: seq<DomainStats>, k: nat, row: DomainStats, d: string)
    requires k < |table| && row.domain == table[k].domain
    requires forall x :: 0 <= x < k ==> table[x].domain != table[k].domain
    ensures FindDomainStats(table[k := row], d)
         == (if d == row.domain then Some(row) else FindDomainStats(table, d))
  {
    if k > 0 {
      if table[0].domain != d {
        assert table[k := row][1..] == table[1..][k - 1 := row];
        FindReplaced(table[1..], k - 1, row, d);
      }
    }
  }

  lemma ReplaceRow(table: seq<DomainStats>, k: nat, row: DomainStats)
    requires k < |table| && row.domain == table[k].domain
    requires forall x :: 0 <= x < k ==> table[x].domain != table[k].domain
    ensures FindDomainStats(table[k := row], row.domain) == Some(row)
    ensures forall d :: d != row.domain ==> FindDomainStats(table[k := row], d) == FindDomainStats(table, d)
    ensures UniqueDomains(table) ==> UniqueDomains(table[k := row])
  {
    FindReplaced(table, k, row, row.domain);
    forall d | d != row.domain ensures FindDomainStats(table[k := row], d) == FindDomainStats(table, d) {
      FindReplaced(table, k, row, d);
    }
  }

  /**
    Saving and reading back: a new domain reads back exactly as saved; an existing one
    keeps its first-seen time, keeps its category unless a non-empty one is given, and
    reads back the saved counters, artworks, last-seen time and flag.
   */
  lemma SaveThenFind(table: seq<DomainStats>, stats: DomainStats)
    ensures var found := FindDomainStats(SaveDomainStats(table, stats), stats.domain);
            && found.Some?
            && found.value.totalAppearances == stats.totalAppearances
            && found.value.artworksFound == stats.artworksFound
            && found.value.lastSeen == stats.lastSeen
            && found.value.flaggedSuspicious == stats.flaggedSuspicious
            && (FindDomainStats(table, stats.domain).None? ==> found.value == stats)
            && (FindDomainStats(table, stats.domain).Some? ==>
                  && found.value.firstSeen == FindDomainStats(table, stats.domain).value.firstSeen
                  && found.value.category == (if Truthy(stats.category) then stats.category
                                              else FindDomainStats(table, stats.domain).value.category))
  {
  }

  /** The row passes the `find_all_domain_stats` filters. */
  predicate PassesFilters(s: DomainStats, category: Option<string>, suspiciousOnly: bool) {
    (!Truthy(category) || s.category == category) && (!suspiciousOnly || s.flaggedSuspicious)
  }

  function StatsFilter(category: Option<string>, suspiciousOnly: bool): DomainStats -> bool {
    (s: DomainStats) => PassesFilters(s, category, suspiciousOnly)
  }

  /** The rows passing the filters: all of them, each as often as it is stored, in table order. */
  function FilterStats(table: seq<DomainStats>, category: Option<string>, suspiciousOnly: bool): (r: seq<DomainStats>)
    ensures forall s :: s in r ==> s in table && PassesFilters(s, category, suspiciousOnly)
    ensures forall s :: s in table && PassesFilters(s, category, suspiciousOnly) ==> s in r
    ensures IsSubsequence(r, table)
    ensures forall s :: multiset(r)[s] == if PassesFilters(s, category, suspiciousOnly) then multiset(table)[s] else 0
  {
    var keep := StatsFilter(category, suspiciousOnly);
    FilterIsSubsequence(table, keep);
    FilterMultiplicity(table, keep);
    Filter(table, keep)
  }

  /** Descending by total appearances. */
  function AppearanceRank(s: DomainStats): real {
    -(s.totalAppearances as real)
  }

  /** `find_all_domain_stats`. */
  function FindAllDomainStats(table: seq<DomainStats>, category: Option<string>, suspiciousOnly: bool,
                              limit: nat): (r: seq<DomainStats>)
    ensures |r| <= limit
    ensures var n := |FilterStats(table, category, suspiciousOnly)|; |r| == if limit < n then limit else n
    ensures forall s :: s in r ==> s in table && PassesFilters(s, category, suspiciousOnly)
    ensures forall i, j :: 0 <= i < j < |r| ==> r[i].totalAppearances >= r[j].totalAppearances
    ensures forall s :: s in table && PassesFilters(s, category, suspiciousOnly) && s !in r ==>
              forall k :: 0 <= k < |r| ==> r[k].totalAppearances >= s.totalAppearances
    ensures multiset(r) <= multiset(FilterStats(table, category, suspiciousOnly))
  {
    var passing := FilterStats(table, category, suspiciousOnly);
    var sorted := SortBy(passing, AppearanceRank);
    var r := SliceTo(sorted, limit);
    TopRanked(table, category, suspiciousOnly, passing, sorted, r, limit);
    r
  }

  /** The first `limit` rows of a ranking of the passing rows are the busiest passing rows. */
  lemma TopRanked(table: seq<DomainStats>, category: Option<string>, suspiciousOnly: bool,
                  passing: seq<DomainStats>, sorted: seq<DomainStats>, r: seq<DomainStats>, limit: nat)
    requires forall s :: s in passing <==> s in table && PassesFilters(s, category, suspiciousOnly)
    requires Sorted(sorted, AppearanceRank) && multiset(sorted) == multiset(passing)
    requires |r| == (if limit < |sorted| then limit else |sorted|) && r == sorted[..|r|]
    ensures |r| == if limit < |passing| then limit else |passing|
    ensures forall s :: s in r ==> s in table && PassesFilters(s, category, suspiciousOnly)
    ensures forall i, j :: 0 <= i < j < |r| ==> r[i].totalAppearances >= r[j].totalAppearances
    ensures forall s :: s in table && PassesFilters(s, category, suspiciousOnly) && s !in r ==>
              forall k :: 0 <= k < |r| ==> r[k].totalAppearances >= s.totalAppearances
    ensures multiset(r) <= multiset(passing)
  {
    assert sorted == r + sorted[|r|..];
    assert multiset(sorted) == multiset(r) + multiset(sorted[|r|..]);
    assert |sorted| == |passing| by {
      assert |multiset(sorted)| == |multiset(passing)|;
    }
    assert forall k :: 0 <= k < |r| ==> r[k] == sorted[k];
    assert forall s :: s in sorted <==> s in passing by {
      forall s ensures s in sorted <==> s in passing {
        assert s in sorted <==> s in multiset(sorted);
      }
    }
    forall i, j | 0 <= i < j < |r| ensures r[i].totalAppearances >= r[j].totalAppearances {
      assert AppearanceRank(sorted[i]) <= AppearanceRank(sorted[j]);
    }
    RankedOut(sorted, r);
  }

  lemma RankedOut(sorted: seq<DomainStats>, r: seq<DomainStats>)
    requires Sorted(sorted, AppearanceRank) && |r| <= |sorted| && r == sorted[..|r|]
    ensures forall s :: s in sorted && s !in r ==> forall k :: 0 <= k < |r| ==> r[k].totalAppearances >= s.totalAppearances
  {
    forall s | s in sorted && s !in r ensures forall k :: 0 <= k < |r| ==> r[k].totalAppearances >= s.totalAppearances {
      var p :| 0 <= p < |sorted| && sorted[p] == s;
      assert p >= |r|;
      forall k | 0 <= k < |r| ensures r[k].totalAppearances >= s.totalAppearances {
        assert r[k] == sorted[k];
      }
    }
  }
}
