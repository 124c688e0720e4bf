/** Statistics over year buckets: `average_years`, `average_years_all` and
    `get_stats`. */
module YearStats {
  import opened Numbers
  import DocumentAggregator

  /** Every year list is non-empty: `average_years` divides by each length. */
  predicate NoEmptyYear(dateDict: map<string, seq<real>>)
  {
    forall y :: y in dateDict ==> dateDict[y] != []
  }

  /** `average_years`: each year mapped to the mean of its scores. */
  function AverageYears(dateDict: map<string, seq<real>>): (averages: map<string, real>)
    requires NoEmptyYear(dateDict)
    ensures averages.Keys == dateDict.Keys
    ensures forall y :: y in averages ==>
              averages[y] * (|dateDict[y]| as real) == Sum(dateDict[y])
  {
    map y | y in dateDict :: Mean(dateDict[y])
  }

  /** `average_years_all`: `average_years` for every neighbourhood. */
  function AverageYearsAll(nhoods: map<string, map<string, seq<real>>>): (averages: map<string, map<string, real>>)
    requires forall n :: n in nhoods ==> NoEmptyYear(nhoods[n])
    ensures averages.Keys == nhoods.Keys
    ensures forall n :: n in averages ==> averages[n].Keys == nhoods[n].Keys
    ensures forall n, y :: n in averages && y in averages[n] ==>
              averages[n][y] * (|nhoods[n][y]| as real) == Sum(nhoods[n][y])
  {
    map n | n in nhoods :: AverageYears(nhoods[n])
  }

  /** An average lies between any bounds of the scores it averages. */
  lemma AverageYearsBounds(dateDict: map<string, seq<real>>, lo: real, hi: real)
    requires NoEmptyYear(dateDict)
    requires forall y, i :: y in dateDict && 0 <= i < |dateDict[y]| ==> lo <= dateDict[y][i] <= hi
    ensures forall y :: y in dateDict ==> lo <= AverageYears(dateDict)[y] <= hi
  {
    forall y | y in dateDict
      ensures lo <= AverageYears(dateDict)[y] <= hi
    {
      MeanBounds(dateDict[y], lo, hi);
    }
  }

  /** The year counts of one neighbourhood: every year with a non-empty list
      mapped to the length of that list. */
  function YearCounts(dateDict: map<string, seq<real>>): (counts: map<string, nat>)
    ensures forall y :: y in counts <==> y in dateDict && dateDict[y] != []
    ensures forall y :: y in counts ==> counts[y] == |dateDict[y]| && counts[y] >= 1
  {
    map y | y in dateDict && dateDict[y] != [] :: |dateDict[y]|
  }

  /** The loop of `get_stats`: `nhood_to_stats[n]` is set for each neighbourhood. */
  method GetStats(nhoods: map<string, map<string, seq<real>>>) returns (nhoodToStats: map<string, map<string, nat>>)
    ensures nhoodToStats.Keys == nhoods.Keys
    ensures forall n :: n in nhoodToStats ==> nhoodToStats[n] == YearCounts(nhoods[n])
  {
    nhoodToStats := map[];
    var remaining := nhoods.Keys;
    while remaining != {}
      invariant remaining <= nhoods.Keys
      invariant nhoodToStats.Keys == nhoods.Keys - remaining
      invariant forall n :: n in nhoodToStats ==> nhoodToStats[n] == YearCounts(nhoods[n])
      decreases |remaining|
    {
      var n :| n in remaining;
      nhoodToStats := nhoodToStats[n := YearCounts(nhoods[n])];
      remaining := remaining - {n};
    }
  }

  /** On the year map that `get_score` produces, no year is empty, so
      `average_years` is defined on it and its year counts have exactly the
      same years, adding up to the number of document scores. */
  lemma StatsOfTable(rows: seq<DocumentAggregator.Row>, scorer: DocumentAggregator.Scorer)
    ensures var t := DocumentAggregator.GetScoreSpec(rows, scorer);
            && NoEmptyYear(t.dateDict)
            && YearCounts(t.dateDict).Keys == t.dateDict.Keys
            && DocumentAggregator.TotalLength(t.dateDict) == |t.allScores|
  {
    DocumentAggregator.GetScoreInvariants(rows, scorer);
  }
}
