/** Accuracy of the classifier on a labelled corpus, for each of a list of
    candidate thresholds: a document is predicted to be by Shakespeare when
    its score reaches the threshold. */
module Evaluation {
  import opened Outcome
  import opened Tokenizer
  import opened Scoring
  import opened Labels

  /** A corpus document: its path, which decides its label, and its text. */
  datatype Document = Document(path: string, text: string)

  function Min(a: nat, b: nat): nat { if a <= b then a else b }

  /** The number of positions below n where the two label lists agree. */
  function MatchCount(actual: seq<bool>, predicted: seq<bool>, n: nat): (count: nat)
    requires n <= |actual| && n <= |predicted|
    ensures count <= n
  {
    if n == 0 then 0
    else MatchCount(actual, predicted, n - 1) + (if actual[n - 1] == predicted[n - 1] then 1 else 0)
  }

  /** MatchCount counts exactly the positions of agreement. */
  lemma {:induction false} MatchCountIsAgreementCount(actual: seq<bool>, predicted: seq<bool>, n: nat)
    requires n <= |actual| && n <= |predicted|
    ensures MatchCount(actual, predicted, n) == |set i | 0 <= i < n && actual[i] == predicted[i]|
  {
    if n > 0 {
      MatchCountIsAgreementCount(actual, predicted, n - 1);
      var before := set i | 0 <= i < n - 1 && actual[i] == predicted[i];
      var now := set i | 0 <= i < n && actual[i] == predicted[i];
      if actual[n - 1] == predicted[n - 1] {
        assert now == before + {n - 1};
      } else {
        assert now == before;
      }
    }
  }

  /** All n positions agree exactly when the count is n, and none does
      exactly when the count is 0. */
  lemma {:induction false} MatchCountExtremes(actual: seq<bool>, predicted: seq<bool>, n: nat)
    requires n <= |actual| && n <= |predicted|
    ensures MatchCount(actual, predicted, n) == n <==> forall i :: 0 <= i < n ==> actual[i] == predicted[i]
    ensures MatchCount(actual, predicted, n) == 0 <==> forall i :: 0 <= i < n ==> actual[i] != predicted[i]
  {
    if n > 0 {
      MatchCountExtremes(actual, predicted, n - 1);
    }
  }

  /** The fraction of predictions that agree with the actual labels, pairing
      the two lists position by position up to the shorter one and dividing
      by the number of predictions; undefined for no predictions. */
  function Accuracy(actual: seq<bool>, predicted: seq<bool>): (r: Result<real>)
    ensures r.Failure? <==> |predicted| == 0
    ensures r.Failure? ==> r.error == EmptyCorpus
    ensures r.Success? ==> 0.0 <= r.value <= 1.0
    ensures r.Success? && |actual| == |predicted| ==>
      (r.value == 1.0 <==> actual == predicted)
    ensures r.Success? && |actual| == |predicted| ==>
      (r.value == 0.0 <==> forall i :: 0 <= i < |actual| ==> actual[i] != predicted[i])
  {
    if |predicted| == 0 then
      Failure(EmptyCorpus)
    else
      var n := Min(|actual|, |predicted|);
      MatchCountExtremes(actual, predicted, n);
      assert |actual| == |predicted| ==>
        (actual == predicted <==> forall i :: 0 <= i < n ==> actual[i] == predicted[i]);
      Success(Fraction(MatchCount(actual, predicted, n), |predicted|))
  }

  /** The accuracy loop: count the agreeing pairs, then divide. */
  method CalculateAccuracy(actual: seq<bool>, predicted: seq<bool>) returns (r: Result<real>)
    ensures r == Accuracy(actual, predicted)
  {
    var correct := 0;
    var n := Min(|actual|, |predicted|);
    for i := 0 to n
      invariant correct == MatchCount(actual, predicted, i)
    {
      if actual[i] == predicted[i] {
        correct := correct + 1;
      }
    }
    if |predicted| == 0 {
      return Failure(EmptyCorpus);
    }
    r := Success(Fraction(correct, |predicted|));
  }

  /** The ground-truth label of every document, in corpus order. */
  function ActualLabels(documents: seq<Document>): seq<bool> {
    seq(|documents|, i requires 0 <= i < |documents| => IsWrittenByShakespeare(documents[i].path))
  }

  /** The predicted label of every document at one threshold. */
  function Predictions(scores: seq<real>, threshold: real): seq<bool> {
    seq(|scores|, i requires 0 <= i < |scores| => scores[i] >= threshold)
  }

  /** The labelling loop: one ground-truth label per document, in order. */
  method LabelDocuments(documents: seq<Document>) returns (actual: seq<bool>)
    ensures |actual| == |documents|
    ensures forall i :: 0 <= i < |documents| ==>
      (actual[i] <==> FirstSegment(BaseName(documents[i].path)) == Author)
    ensures actual == ActualLabels(documents)
  {
    actual := [];
    for i := 0 to |documents|
      invariant actual == ActualLabels(documents[..i])
    {
      actual := actual + [IsWrittenByShakespeare(documents[i].path)];
    }
    assert documents[..|documents|] == documents;
  }

  /** The scoring loop: one score per document, in order, stopping at the
      first document that has no score. */
  method ScoreDocuments(documents: seq<Document>, vocabulary: seq<string>) returns (r: Result<seq<real>>)
    ensures r.Success? ==>
      |r.value| == |documents| &&
      forall i :: 0 <= i < |documents| ==>
        ShakespeareScore(documents[i].text, vocabulary) == Success(r.value[i])
    ensures r.Failure? ==>
      r.error == DegenerateDocument &&
      exists i :: 0 <= i < |documents| && ShakespeareScore(documents[i].text, vocabulary).Failure?
  {
    var scores := [];
    for i := 0 to |documents|
      invariant |scores| == i
      invariant forall j :: 0 <= j < i ==>
        ShakespeareScore(documents[j].text, vocabulary) == Success(scores[j])
    {
      var score := ShakespeareScore(documents[i].text, vocabulary);
      if score.Failure? {
        return Failure(score.error);
      }
      scores := scores + [score.value];
    }
    r := Success(scores);
  }

  /** The prediction loop: a document is predicted positive exactly when its
      score reaches the threshold. */
  method PredictLabels(scores: seq<real>, threshold: real) returns (predicted: seq<bool>)
    ensures |predicted| == |scores|
    ensures forall i :: 0 <= i < |scores| ==> (predicted[i] <==> scores[i] >= threshold)
    ensures predicted == Predictions(scores, threshold)
  {
    predicted := [];
    for i := 0 to |scores|
      invariant |predicted| == i
      invariant forall j :: 0 <= j < i ==> predicted[j] == (scores[j] >= threshold)
    {
      if scores[i] >= threshold {
        predicted := predicted + [true];
      } else {
        predicted := predicted + [false];
      }
    }
  }

  /** The threshold loop: one accuracy per threshold, in threshold order,
      for fixed labels and scores. */
  method AccuraciesAt(thresholds: seq<real>, actual: seq<bool>, scores: seq<real>) returns (r: Result<seq<real>>)
    ensures r.Failure? <==> |scores| == 0 && |thresholds| > 0
    ensures r.Failure? ==> r.error == EmptyCorpus
    ensures r.Success? ==>
      |r.value| == |thresholds| &&
      forall k :: 0 <= k < |thresholds| ==>
        Accuracy(actual, Predictions(scores, thresholds[k])) == Success(r.value[k])
  {
    var accuracies := [];
    for k := 0 to |thresholds|
      invariant |accuracies| == k
      invariant k > 0 ==> |scores| > 0
      invariant forall j :: 0 <= j < k ==>
        Accuracy(actual, Predictions(scores, thresholds[j])) == Success(accuracies[j])
    {
      var predicted := PredictLabels(scores, thresholds[k]);
      var accuracy := CalculateAccuracy(actual, predicted);
      if accuracy.Failure? {
        return Failure(accuracy.error);
      }
      accuracies := accuracies + [accuracy.value];
    }
    r := Success(accuracies);
  }

  /** The sweep: label and score every document once, then compute one
      accuracy per threshold, in threshold order. A document without a
      qualifying token makes the whole sweep fail; so does an empty corpus,
      but only once there is a threshold to evaluate. The ghost result
      scores names the per-document scores the accuracies are computed from. */
  method ComputeAllAccuracies(thresholds: seq<real>, documents: seq<Document>, vocabulary: seq<string>)
    returns (r: Result<seq<real>>, ghost scores: seq<real>)
    ensures r == Failure(DegenerateDocument) <==>
      exists i :: 0 <= i < |documents| && ShakespeareScore(documents[i].text, vocabulary).Failure?
    ensures r == Failure(EmptyCorpus) <==> |documents| == 0 && |thresholds| > 0
    ensures r.Success? ==>
      |scores| == |documents| &&
      (forall i :: 0 <= i < |documents| ==>
        ShakespeareScore(documents[i].text, vocabulary) == Success(scores[i])) &&
      |r.value| == |thresholds| &&
      (forall k :: 0 <= k < |thresholds| ==>
        Accuracy(ActualLabels(documents), Predictions(scores, thresholds[k])) == Success(r.value[k]) &&
        0.0 <= r.value[k] <= 1.0)
  {
    var actual := LabelDocuments(documents);
    var scored := ScoreDocuments(documents, vocabulary);
    if scored.Failure? {
      return Failure(scored.error), [];
    }
    var documentScores := scored.value;
    scores := documentScores;
    r := AccuraciesAt(thresholds, actual, documentScores);
  }

  /** The documents predicted positive at a threshold. */
  function Positives(scores: seq<real>, threshold: real): set<nat> {
    set i | 0 <= i < |scores| && scores[i] >= threshold
  }

  /** Raising the threshold never adds a positive prediction: whatever is
      positive at the higher threshold is positive at the lower one, so there
      are no more positives at the higher one. */
  lemma PredictionsMonotone(scores: seq<real>, lower: real, higher: real)
    requires lower <= higher
    ensures forall i :: 0 <= i < |scores| ==>
      Predictions(scores, higher)[i] ==> Predictions(scores, lower)[i]
    ensures Positives(scores, higher) <= Positives(scores, lower)
    ensures |Positives(scores, higher)| <= |Positives(scores, lower)|
  {
    SubsetCardinality(Positives(scores, higher), Positives(scores, lower));
  }

  /** Scores lie in [0, 1], so a threshold of at most 0 predicts every
      document positive and a threshold above 1 predicts none. */
  lemma ExtremeThresholds(documents: seq<Document>, vocabulary: seq<string>, scores: seq<real>, threshold: real)
    requires |scores| == |documents|
    requires forall i :: 0 <= i < |documents| ==>
      ShakespeareScore(documents[i].text, vocabulary) == Success(scores[i])
    ensures threshold <= 0.0 ==> Predictions(scores, threshold) == seq(|documents|, i => true)
    ensures threshold > 1.0 ==> Predictions(scores, threshold) == seq(|documents|, i => false)
  {
    forall i | 0 <= i < |documents| ensures 0.0 <= scores[i] <= 1.0 {
      assert ShakespeareScore(documents[i].text, vocabulary).Success?;
    }
  }

  /** The accuracy is the number of positions where the paired labels agree
      over the number of predictions. */
  lemma AccuracyIsAgreementFraction(actual: seq<bool>, predicted: seq<bool>)
    requires |predicted| > 0
    ensures Accuracy(actual, predicted).Success?
    ensures Accuracy(actual, predicted).value ==
      |set i | 0 <= i < Min(|actual|, |predicted|) && actual[i] == predicted[i]| as real
        / |predicted| as real
  {
    MatchCountIsAgreementCount(actual, predicted, Min(|actual|, |predicted|));
  }

  /** When every document is predicted positive, the accuracy is the
      fraction of documents that are by Shakespeare. */
  lemma AccuracyWhenAllPositive(actual: seq<bool>)
    requires |actual| > 0
    ensures Accuracy(actual, seq(|actual|, i => true)).Success?
    ensures Accuracy(actual, seq(|actual|, i => true)).value
      == |set i | 0 <= i < |actual| && actual[i]| as real / |actual| as real
  {
    var predicted := seq(|actual|, i => true);
    AccuracyIsAgreementFraction(actual, predicted);
    assert (set i | 0 <= i < Min(|actual|, |predicted|) && actual[i] == predicted[i])
        == (set i | 0 <= i < |actual| && actual[i]);
  }
}
