/** `get_score`: one neighbourhood's article table is turned into per-document
    scores, a year-bucketed map of them, an overall mean and a count of
    documents without any strong sentence. Reading the CSV and pickling the
    results are left out; the table is given as a sequence of rows and the
    sentence scorer (tokeniser plus VADER compound score) as a function. */
module DocumentAggregator {
  import opened Numbers
  import opened Text
  import opened SentenceScorer

  datatype Option<T> = None | Some(value: T)

  /** One row of the article table; `text` is `None` where the cell is not a
      string (pandas reads an empty cell as NaN). */
  datatype Row = Row(text: Option<string>, date: string)

  /** A document that produced a score, with the year it is filed under. */
  datatype Doc = Doc(year: string, score: real)

  /** What `get_score` returns: `all_scores, final_score, date_dict, count`. */
  datatype TableScores = TableScores(
    allScores: seq<real>,
    finalScore: real,
    dateDict: map<string, seq<real>>,
    count: nat)

  /** The compound score of every sentence of a text, in sentence order. */
  type Scorer = string -> seq<real>

  const MinWords: nat := 10
  const MaxWords: nat := 6000

  /** `date.split('-')[0]`: the part of the date before its first `-`. */
  function YearKey(date: string): (year: string)
    ensures |year| <= |date| && year == date[..|year|]
    ensures '-' !in year
    ensures |year| < |date| ==> date[|year|] == '-'
  {
    if date == [] || date[0] == '-' then [] else [date[0]] + YearKey(date[1..])
  }

  /** The row passes the gate: it is not row 0, its text is a string, and the
      text has between 10 and 6000 whitespace-separated words, so it is at
      least 19 characters long. */
  predicate Admitted(index: nat, row: Row)
    ensures Admitted(index, row) ==> row.text.Some? && |row.text.value| >= 2 * MinWords - 1
  {
    index >= 1 && row.text.Some? && MinWords <= WordCount(row.text.value) <= MaxWords
  }

  /** The strong sentence scores of an admitted row's text. */
  function SentScores(row: Row, scorer: Scorer): seq<real>
    requires row.text.Some?
  {
    StrongScores(scorer(row.text.value))
  }

  /** The document row `i` contributes, if any. */
  function DocAt(rows: seq<Row>, i: nat, scorer: Scorer): seq<Doc>
    requires i < |rows|
  {
    if Admitted(i, rows[i]) && SentScores(rows[i], scorer) != [] then
      [Doc(YearKey(rows[i].date), Mean(SentScores(rows[i], scorer)))]
    else []
  }

  /** The scored documents of a table, in row order. */
  function ScoredDocs(rows: seq<Row>, scorer: Scorer): seq<Doc>
  {
    if rows == [] then []
    else ScoredDocs(rows[..|rows| - 1], scorer) + DocAt(rows, |rows| - 1, scorer)
  }

  /** The number of admitted rows whose text has no strong sentence. */
  function NoSignal(rows: seq<Row>, scorer: Scorer): nat
  {
    if rows == [] then 0
    else
      var i := |rows| - 1;
      NoSignal(rows[..i], scorer)
        + (if Admitted(i, rows[i]) && SentScores(rows[i], scorer) == [] then 1 else 0)
  }

  function Scores(docs: seq<Doc>): seq<real>
  {
    seq(|docs|, i requires 0 <= i < |docs| => docs[i].score)
  }

  /** The scores of the documents filed under `year`, in document order. */
  function ScoresIn(docs: seq<Doc>, year: string): seq<real>
  {
    if docs == [] then []
    else
      var d := docs[|docs| - 1];
      ScoresIn(docs[..|docs| - 1], year) + (if d.year == year then [d.score] else [])
  }

  function YearsOf(docs: seq<Doc>): set<string>
  {
    set i | 0 <= i < |docs| :: docs[i].year
  }

  /** The year buckets: every year that has a document, mapped to its scores. */
  function Buckets(docs: seq<Doc>): map<string, seq<real>>
  {
    map y | y in YearsOf(docs) :: ScoresIn(docs, y)
  }

  /** `final_score`: 0 when there are no scores, and otherwise their mean. */
  function MeanOrZero(s: seq<real>): (r: real)
    ensures s == [] ==> r == 0.0
    ensures s != [] ==> r * (|s| as real) == Sum(s)
  {
    if s == [] then 0.0 else Mean(s)
  }

  /** What `get_score` computes, stated declaratively over the scored documents.
      Row 0 never contributes, so the scores and the no-signal count together
      number fewer than the rows. */
  function GetScoreSpec(rows: seq<Row>, scorer: Scorer): (t: TableScores)
    ensures |t.allScores| + t.count <= (if rows == [] then 0 else |rows| - 1)
    ensures t.finalScore == MeanOrZero(t.allScores)
  {
    AdmittedSplit(rows, scorer);
    var docs := ScoredDocs(rows, scorer);
    TableScores(Scores(docs), MeanOrZero(Scores(docs)), Buckets(docs), NoSignal(rows, scorer))
  }

  /** The total length of all lists in a year map. */
  ghost function TotalLength(m: map<string, seq<real>>): nat
    decreases |m|
  {
    if m == map[] then 0
    else
      var k :| k in m;
      assert (m - {k}).Keys == m.Keys - {k};
      |m[k]| + TotalLength(m - {k})
  }

  /** The loop of `get_score`, without the file reading and writing. */
  method GetScore(rows: seq<Row>, scorer: Scorer) returns (result: TableScores)
    ensures result == GetScoreSpec(rows, scorer)
  {
    var count: nat := 0;
    var allScores: seq<real> := [];
    var dateDict: map<string, seq<real>> := map[];
    ghost var docs: seq<Doc> := [];
    for index := 0 to |rows|
      invariant docs == ScoredDocs(rows[..index], scorer)
      invariant count == NoSignal(rows[..index], scorer)
      invariant allScores == Scores(docs)
      invariant dateDict == Buckets(docs)
    {
      RowStep(rows, index, scorer);
      var row := rows[index];
      if index < 1 {
        continue;
      }
      var year := YearKey(row.date);
      if row.text.None? || !(MinWords <= WordCount(row.text.value) <= MaxWords) {
        continue;
      }
      var sentScores := FilterStrong(scorer(row.text.value));
      if sentScores == [] {
        count := count + 1;
        continue;
      }
      var docScore := Sum(sentScores) / (|sentScores| as real);
      BucketsSnoc(docs, Doc(year, docScore));
      ScoresSnoc(docs, Doc(year, docScore));
      dateDict := dateDict[year := (if year in dateDict then dateDict[year] else []) + [docScore]];
      allScores := allScores + [docScore];
      docs := docs + [Doc(year, docScore)];
    }
    assert rows[..|rows|] == rows;
    var finalScore := if allScores != [] then Sum(allScores) / (|allScores| as real) else 0.0;
    result := TableScores(allScores, finalScore, dateDict, count);
  }

  /** One more row extends the scored documents and the no-signal count by
      that row's contribution alone. */
  lemma AggregateStep(rows: seq<Row>, index: nat, scorer: Scorer)
    requires index < |rows|
    ensures ScoredDocs(rows[..index + 1], scorer) == ScoredDocs(rows[..index], scorer) + DocAt(rows, index, scorer)
    ensures NoSignal(rows[..index + 1], scorer) == NoSignal(rows[..index], scorer)
      + (if Admitted(index, rows[index]) && SentScores(rows[index], scorer) == [] then 1 else 0)
  {
    assert rows[..index + 1][..index] == rows[..index];
  }

  /** The effect of row `index` on the scored documents and the no-signal
      count, one case per branch of the loop body. */
  lemma RowStep(rows: seq<Row>, index: nat, scorer: Scorer)
    requires index < |rows|
    ensures var row := rows[index];
            var before := ScoredDocs(rows[..index], scorer);
            var after := ScoredDocs(rows[..index + 1], scorer);
            var n := NoSignal(rows[..index], scorer);
            var n' := NoSignal(rows[..index + 1], scorer);
            if !Admitted(index, row) then after == before && n' == n
            else if StrongScores(scorer(row.text.value)) == [] then after == before && n' == n + 1
            else
              var strong := StrongScores(scorer(row.text.value));
              after == before + [Doc(YearKey(row.date), Sum(strong) / (|strong| as real))] && n' == n
  {
    AggregateStep(rows, index, scorer);
  }

  lemma ScoresSnoc(docs: seq<Doc>, d: Doc)
    ensures Scores(docs + [d]) == Scores(docs) + [d.score]
  {
  }

  // ---------------------------------------------------------------------------
  // The year buckets

  lemma {:induction false} ScoresInEmpty(docs: seq<Doc>, year: string)
    ensures ScoresIn(docs, year) == [] <==> year !in YearsOf(docs)
    decreases |docs|
  {
    if docs != [] {
      var u := docs[..|docs| - 1];
      ScoresInEmpty(u, year);
      assert docs == u + [docs[|docs| - 1]];
      YearsOfSnoc(u, docs[|docs| - 1]);
    }
  }

  /** The years of one more document are the old years plus its own. */
  lemma YearsOfSnoc(docs: seq<Doc>, d: Doc)
    ensures YearsOf(docs + [d]) == YearsOf(docs) + {d.year}
  {
    var docs' := docs + [d];
    forall y | y in YearsOf(docs') ensures y in YearsOf(docs) + {d.year} {
      var i :| 0 <= i < |docs'| && docs'[i].year == y;
      if i < |docs| {
        assert docs[i] == docs'[i];
      }
    }
    forall y | y in YearsOf(docs) ensures y in YearsOf(docs') {
      var i :| 0 <= i < |docs| && docs[i].year == y;
      assert docs'[i] == docs[i];
    }
    assert docs'[|docs|] == d;
  }

  /** Filing one more document appends its score to its year's list, creating
      the list if the year is new; no other year changes. */
  lemma BucketsSnoc(docs: seq<Doc>, d: Doc)
    ensures Buckets(docs + [d]) == Buckets(docs)[d.year :=
      (if d.year in Buckets(docs) then Buckets(docs)[d.year] else []) + [d.score]]
  {
    var docs' := docs + [d];
    assert docs'[..|docs'| - 1] == docs;
    YearsOfSnoc(docs, d);
    var old_ := Buckets(docs);
    var new_ := old_[d.year := (if d.year in old_ then old_[d.year] else []) + [d.score]];
    forall y | y in Buckets(docs')
      ensures y in new_ && Buckets(docs')[y] == new_[y]
    {
      if y == d.year && d.year !in YearsOf(docs) {
        ScoresInEmpty(docs, y);
      }
    }
    assert Buckets(docs').Keys == new_.Keys;
  }

  /** The total length of a year map after one list is replaced. */
  lemma {:induction false} TotalLengthRemove(m: map<string, seq<real>>, k: string)
    requires k in m
    ensures TotalLength(m) == |m[k]| + TotalLength(m - {k})
    decreases |m|
  {
    var k' :| k' in m && TotalLength(m) == |m[k']| + TotalLength(m - {k'});
    if k' != k {
      assert (m - {k'}).Keys == m.Keys - {k'};
      assert (m - {k}).Keys == m.Keys - {k};
      TotalLengthRemove(m - {k'}, k);
      TotalLengthRemove(m - {k}, k');
      assert m - {k'} - {k} == m - {k} - {k'};
    }
  }

  lemma TotalLengthUpdate(m: map<string, seq<real>>, k: string, s: seq<real>)
    ensures TotalLength(m[k := s]) + (if k in m then |m[k]| else 0) == TotalLength(m) + |s|
  {
    TotalLengthRemove(m[k := s], k);
    assert m[k := s] - {k} == m - {k};
    if k in m {
      TotalLengthRemove(m, k);
    } else {
      assert m - {k} == m;
    }
  }

  /** The year buckets partition the documents: no list is empty and their
      lengths add up to the number of documents. */
  lemma {:induction false} BucketsPartition(docs: seq<Doc>)
    ensures forall y :: y in Buckets(docs) ==> Buckets(docs)[y] != []
    ensures TotalLength(Buckets(docs)) == |docs|
    decreases |docs|
  {
    forall y | y in Buckets(docs) ensures Buckets(docs)[y] != [] {
      ScoresInEmpty(docs, y);
    }
    if docs != [] {
      var u := docs[..|docs| - 1];
      var d := docs[|docs| - 1];
      assert docs == u + [d];
      BucketsPartition(u);
      BucketsSnoc(u, d);
      TotalLengthUpdate(Buckets(u), d.year,
        (if d.year in Buckets(u) then Buckets(u)[d.year] else []) + [d.score]);
    }
  }

  // ---------------------------------------------------------------------------
  // Properties of get_score

  /** The number of rows that pass the gate. */
  function AdmittedRows(rows: seq<Row>): (n: nat)
    ensures n <= (if rows == [] then 0 else |rows| - 1)
  {
    if rows == [] then 0
    else AdmittedRows(rows[..|rows| - 1]) + (if Admitted(|rows| - 1, rows[|rows| - 1]) then 1 else 0)
  }

  /** Two tables agree on every row that could contribute: at each index the
      rows are equal or neither passes the gate. */
  predicate SameAdmitted(rows: seq<Row>, rows': seq<Row>)
  {
    |rows| == |rows'|
    && forall i :: 0 <= i < |rows| ==>
         rows[i] == rows'[i] || (!Admitted(i, rows[i]) && !Admitted(i, rows'[i]))
  }

  lemma {:induction false} SameAdmittedContributions(rows: seq<Row>, rows': seq<Row>, scorer: Scorer)
    requires SameAdmitted(rows, rows')
    ensures ScoredDocs(rows, scorer) == ScoredDocs(rows', scorer)
    ensures NoSignal(rows, scorer) == NoSignal(rows', scorer)
    decreases |rows|
  {
    if rows != [] {
      var n := |rows| - 1;
      assert SameAdmitted(rows[..n], rows'[..n]);
      SameAdmittedContributions(rows[..n], rows'[..n], scorer);
      assert DocAt(rows, n, scorer) == DocAt(rows', n, scorer);
    }
  }

  /** Rows that do not pass the gate contribute to nothing: replacing them
      leaves every output of get_score unchanged. */
  lemma SameAdmittedSameScores(rows: seq<Row>, rows': seq<Row>, scorer: Scorer)
    requires SameAdmitted(rows, rows')
    ensures GetScoreSpec(rows, scorer) == GetScoreSpec(rows', scorer)
  {
    SameAdmittedContributions(rows, rows', scorer);
  }

  /** Row 0 is skipped whatever it holds. */
  lemma FirstRowIgnored(rows: seq<Row>, r: Row, scorer: Scorer)
    requires rows != []
    ensures GetScoreSpec(rows[0 := r], scorer) == GetScoreSpec(rows, scorer)
  {
    SameAdmittedContributions(rows[0 := r], rows, scorer);
  }

  /** A row whose text is missing or has fewer than 10 or more than 6000 words
      counts nowhere: it may be replaced by any other such row. */
  lemma RejectedRowIgnored(rows: seq<Row>, i: nat, r: Row, scorer: Scorer)
    requires i < |rows|
    requires rows[i].text.None? || !(MinWords <= WordCount(rows[i].text.value) <= MaxWords)
    requires r.text.None? || !(MinWords <= WordCount(r.text.value) <= MaxWords)
    ensures GetScoreSpec(rows[i := r], scorer) == GetScoreSpec(rows, scorer)
  {
    SameAdmittedContributions(rows[i := r], rows, scorer);
  }

  /** Processing one more row: a rejected row changes nothing; an admitted row
      with no strong sentence only adds 1 to the no-signal count; any other
      admitted row appends its document mean once to `all_scores` and once to
      its year's list, and nothing else changes. */
  lemma GetScoreSnoc(rows: seq<Row>, r: Row, scorer: Scorer)
    ensures var before := GetScoreSpec(rows, scorer);
            var after := GetScoreSpec(rows + [r], scorer);
            if !Admitted(|rows|, r) then
              after == before
            else if StrongScores(scorer(r.text.value)) == [] then
              after == before.(count := before.count + 1)
            else
              var m := Mean(StrongScores(scorer(r.text.value)));
              var y := YearKey(r.date);
              && after.count == before.count
              && after.allScores == before.allScores + [m]
              && after.dateDict == before.dateDict[y :=
                   (if y in before.dateDict then before.dateDict[y] else []) + [m]]
  {
    var rows' := rows + [r];
    assert rows'[..|rows|] == rows;
    assert rows'[..|rows| + 1] == rows';
    AggregateStep(rows', |rows|, scorer);
    var docs := ScoredDocs(rows, scorer);
    if !Admitted(|rows|, r) || StrongScores(scorer(r.text.value)) == [] {
      assert DocAt(rows', |rows|, scorer) == [];
      assert ScoredDocs(rows', scorer) == docs;
    } else {
      var d := Doc(YearKey(r.date), Mean(StrongScores(scorer(r.text.value))));
      assert DocAt(rows', |rows|, scorer) == [d];
      assert ScoredDocs(rows', scorer) == docs + [d];
      BucketsSnoc(docs, d);
      ScoresSnoc(docs, d);
    }
  }

  /** Every admitted row is either counted as no-signal or contributes exactly
      one document score, never both. */
  lemma {:induction false} AdmittedSplit(rows: seq<Row>, scorer: Scorer)
    ensures NoSignal(rows, scorer) + |ScoredDocs(rows, scorer)| == AdmittedRows(rows)
    decreases |rows|
  {
    if rows != [] {
      AdmittedSplit(rows[..|rows| - 1], scorer);
    }
  }

  /** The invariants of get_score's year map: the year lists are non-empty
      and together hold exactly as many scores as `all_scores`; `count` plus
      the number of scores is the number of admitted rows. */
  lemma GetScoreInvariants(rows: seq<Row>, scorer: Scorer)
    ensures var t := GetScoreSpec(rows, scorer);
            && (forall y :: y in t.dateDict ==> t.dateDict[y] != [])
            && TotalLength(t.dateDict) == |t.allScores|
            && t.count + |t.allScores| == AdmittedRows(rows)
  {
    BucketsPartition(ScoredDocs(rows, scorer));
    AdmittedSplit(rows, scorer);
  }

  /** `final_score` is 0 when no document scored, and otherwise the mean of
      `all_scores`: multiplied by their number it gives their sum. */
  lemma FinalScoreIsMean(rows: seq<Row>, scorer: Scorer)
    ensures var t := GetScoreSpec(rows, scorer);
            && (t.allScores == [] ==> t.finalScore == 0.0)
            && (t.allScores != [] ==> t.finalScore * (|t.allScores| as real) == Sum(t.allScores))
  {
    var t := GetScoreSpec(rows, scorer);
    ZeroOrMean(t.allScores, t.finalScore);
  }

  /** `MeanOrZero`'s contract for a value known to equal it; it keeps the
      arithmetic away from the terms that value was computed from. */
  lemma ZeroOrMean(s: seq<real>, f: real)
    requires f == MeanOrZero(s)
    ensures s == [] ==> f == 0.0
    ensures s != [] ==> f * (|s| as real) == Sum(s)
  {
  }

  /** A scorer whose compound scores lie in [-1, 1], as VADER's do. */
  ghost predicate BoundedScorer(scorer: Scorer)
  {
    forall text: string, i :: 0 <= i < |scorer(text)| ==> -1.0 <= scorer(text)[i] <= 1.0
  }

  lemma {:induction false} ScoredDocsBounded(rows: seq<Row>, scorer: Scorer)
    requires BoundedScorer(scorer)
    ensures forall k :: 0 <= k < |ScoredDocs(rows, scorer)| ==>
              -1.0 <= ScoredDocs(rows, scorer)[k].score <= 1.0
    decreases |rows|
  {
    if rows != [] {
      var n := |rows| - 1;
      ScoredDocsBounded(rows[..n], scorer);
      if Admitted(n, rows[n]) && SentScores(rows[n], scorer) != [] {
        var strong := SentScores(rows[n], scorer);
        StrongScoresMembers(scorer(rows[n].text.value));
        assert forall i :: 0 <= i < |strong| ==> strong[i] in scorer(rows[n].text.value);
        MeanBounds(strong, -1.0, 1.0);
      }
    }
  }

  /** With compound scores in [-1, 1], every document score and `final_score`
      lie in [-1, 1]. */
  lemma ScoresBounded(rows: seq<Row>, scorer: Scorer)
    requires BoundedScorer(scorer)
    ensures var t := GetScoreSpec(rows, scorer);
            && (forall k :: 0 <= k < |t.allScores| ==> -1.0 <= t.allScores[k] <= 1.0)
            && -1.0 <= t.finalScore <= 1.0
  {
    var t := GetScoreSpec(rows, scorer);
    ScoredDocsBounded(rows, scorer);
    if t.allScores != [] {
      MeanBounds(t.allScores, -1.0, 1.0);
    }
  }
}
