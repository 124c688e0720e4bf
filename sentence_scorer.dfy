/** The strong-sentence filter of `get_doc_sent_vader`. Sentence splitting and
    the compound polarity of each sentence come from external models, so the
    filter is modelled over the sequence of compound scores they produce. */
module SentenceScorer {

  /** Scores at or inside this magnitude count as weak sentiment. */
  const Threshold: real := 0.2

  /** A sentence is kept when `score > 0.2 or score < -0.2`. */
  predicate IsStrong(score: real)
  {
    score > Threshold || score < -Threshold
  }

  /** The kept scores, in sentence order. */
  function StrongScores(scores: seq<real>): (kept: seq<real>)
    ensures |kept| <= |scores|
    ensures forall i :: 0 <= i < |kept| ==> kept[i] > Threshold || kept[i] < -Threshold
  {
    if scores == [] then []
    else
      var last := scores[|scores| - 1];
      StrongScores(scores[..|scores| - 1]) + (if IsStrong(last) then [last] else [])
  }

  /** The loop of `get_doc_sent_vader`: append each strong score to `sent_scores`. */
  method FilterStrong(scores: seq<real>) returns (sentScores: seq<real>)
    ensures sentScores == StrongScores(scores)
  {
    sentScores := [];
    for i := 0 to |scores|
      invariant sentScores == StrongScores(scores[..i])
    {
      var score := scores[i];
      if score > Threshold || score < -Threshold {
        sentScores := sentScores + [score];
      }
      assert scores[..i + 1][..i] == scores[..i];
    }
    assert scores[..|scores|] == scores;
  }

  /** Filtering commutes with concatenation: together with the one-score case
      (kept exactly when strong) this pins the filter down and shows that the
      kept scores stay in their original order. */
  lemma {:induction false} StrongScoresConcat(a: seq<real>, b: seq<real>)
    ensures StrongScores(a + b) == StrongScores(a) + StrongScores(b)
    decreases |b|
  {
    if b == [] {
      assert a + b == a;
    } else {
      var b' := b[..|b| - 1];
      assert (a + b)[..|a + b| - 1] == a + b';
      StrongScoresConcat(a, b');
    }
  }

  /** A single score is kept exactly when it is strong; scores equal to
      0.2 or -0.2 are dropped. */
  lemma StrongScoresSingle(x: real)
    ensures StrongScores([x]) == (if x > Threshold || x < -Threshold then [x] else [])
    ensures StrongScores([Threshold]) == [] && StrongScores([-Threshold]) == []
  {
    assert [x][..0] == [];
    assert [Threshold][..0] == [] && [-Threshold][..0] == [];
  }

  /** The kept scores are exactly the strong scores of the input. */
  lemma {:induction false} StrongScoresMembers(scores: seq<real>)
    ensures forall x :: x in StrongScores(scores) <==> x in scores && IsStrong(x)
    decreases |scores|
  {
    if scores != [] {
      var u := scores[..|scores| - 1];
      StrongScoresMembers(u);
      assert scores == u + [scores[|scores| - 1]];
    }
  }

  /** The filter returns the empty list exactly when no sentence clears the threshold. */
  lemma StrongScoresEmpty(scores: seq<real>)
    ensures StrongScores(scores) == [] <==> forall i :: 0 <= i < |scores| ==> !IsStrong(scores[i])
  {
    StrongScoresMembers(scores);
    if StrongScores(scores) != [] {
      assert StrongScores(scores)[0] in StrongScores(scores);
    }
  }
}
