/**
  Validated value objects: a similarity score in the unit interval and a range
  of years. Construction that the source rejects with `ValueError` yields a
  `Failure` carrying the message.
 */
module ValueObjects {
  import opened Wrappers

  const HIGH_CONFIDENCE_THRESHOLD: real := 0.90
  const LOW_CONFIDENCE_THRESHOLD: real := 0.60

  /** The years a `DateRange` may span. */
  const MIN_YEAR: int := 1000
  const MAX_YEAR: int := 3000

  datatype SimilarityScore = SimilarityScore(value: real) {
    predicate IsHighConfidence() {
      value >= HIGH_CONFIDENCE_THRESHOLD
    }

    predicate IsLowConfidence() {
      value < LOW_CONFIDENCE_THRESHOLD
    }

    predicate MeetsThreshold(threshold: real) {
      value >= threshold
    }
  }

  /** `SimilarityScore(value)`: accepted exactly when the value lies in [0, 1]. */
  function NewSimilarityScore(value: real): (r: Result<SimilarityScore>)
    ensures r.Success? <==> 0.0 <= value <= 1.0
    ensures r.Success? ==> r.value.value == value
    ensures r.Failure? ==> r.error == "Score must be 0.0-1.0"
  {
    if 0.0 <= value <= 1.0 then Success(SimilarityScore(value)) else Failure("Score must be 0.0-1.0")
  }

  /**
    The confidence bands: no score is both high and low confidence, a score at the
    high threshold meets every threshold up to it, and the scores in between are
    neither.
   */
  lemma ConfidenceBands(s: SimilarityScore)
    ensures !(s.IsHighConfidence() && s.IsLowConfidence())
    ensures s.IsHighConfidence() <==> s.MeetsThreshold(HIGH_CONFIDENCE_THRESHOLD)
    ensures s.IsLowConfidence() <==> !s.MeetsThreshold(LOW_CONFIDENCE_THRESHOLD)
    ensures LOW_CONFIDENCE_THRESHOLD <= s.value < HIGH_CONFIDENCE_THRESHOLD
            <==> !s.IsHighConfidence() && !s.IsLowConfidence()
  {
  }

  /** Meeting a threshold is monotone: a score that meets `t` meets every lower threshold. */
  lemma MeetsLowerThreshold(s: SimilarityScore, t: real, lower: real)
    requires s.MeetsThreshold(t) && lower <= t
    ensures s.MeetsThreshold(lower)
  {
  }

  datatype DateRange = DateRange(startYear: int, endYear: int) {
    predicate ContainsYear(year: int) {
      startYear <= year <= endYear
    }
  }

  /**
    `DateRange(start, end)`: the start year is checked first, then the end year,
    then their order; a range exists exactly when 1000 <= start <= end <= 3000.
   */
  function NewDateRange(startYear: int, endYear: int): (r: Result<DateRange>)
    ensures r.Success? <==> MIN_YEAR <= startYear <= endYear <= MAX_YEAR
    ensures r.Success? ==> r.value == DateRange(startYear, endYear)
    ensures !(MIN_YEAR <= startYear <= MAX_YEAR) ==> r == Failure("Invalid start year")
    ensures MIN_YEAR <= startYear <= MAX_YEAR && !(MIN_YEAR <= endYear <= MAX_YEAR) ==> r == Failure("Invalid end year")
  {
    if startYear < MIN_YEAR || startYear > MAX_YEAR then Failure("Invalid start year")
    else if endYear < MIN_YEAR || endYear > MAX_YEAR then Failure("Invalid end year")
    else if startYear > endYear then Failure("Start year must be <= end year")
    else Success(DateRange(startYear, endYear))
  }

  /** A constructed range contains both its endpoints and only years between them. */
  lemma RangeContainsEndpoints(startYear: int, endYear: int, year: int)
    requires NewDateRange(startYear, endYear).Success?
    ensures var d := NewDateRange(startYear, endYear).value;
            && d.ContainsYear(startYear) && d.ContainsYear(endYear)
            && (d.ContainsYear(year) ==> MIN_YEAR <= year <= MAX_YEAR)
  {
  }
}
