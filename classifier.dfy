/**
 * The scoring and selection part of `find_most_similar_category`, shared by
 * both vector stores: score the article embedding against every category
 * embedding with cosine similarity, then take `max` by score.
 */
module Classifier {
  import opened Wrappers
  import opened VectorMath
  import opened Dicts
  import opened Similarity

  /** The returned pair: `(None, None)`, or a category and its score. */
  datatype Match = NoMatch | Best(category: string, score: Score)

  const EMPTY_MAX := Exception(ValueError, "max() arg is an empty sequence")

  /** What the loop writes for each (category, embedding) item, or the first raise. */
  function ScoreWrites(embedding: Vector, embeddingsDict: Dict<string, Vector>, sqrt: real -> real): Result<seq<Option<(string, Score)>>>
    requires IsSqrt(sqrt)
  {
    if embeddingsDict == [] then Ok([])
    else
      var n := |embeddingsDict| - 1;
      match ScoreWrites(embedding, embeddingsDict[..n], sqrt)
      case Raise(e) => Raise(e)
      case Ok(us) =>
        match CosineSimilarity(embedding, embeddingsDict[n].1, sqrt)
        case Raise(e) => Raise(e)
        case Ok(score) => Ok(us + [Some((embeddingsDict[n].0, score))])
  }

  function Values<K, V>(d: Dict<K, V>): (vs: seq<V>)
    ensures |vs| == |d|
  {
    seq(|d|, i requires 0 <= i < |d| => d[i].1)
  }

  /** `max(scores, key=scores.get)` and the score stored under it. */
  function MaxByScore(scores: Dict<string, Score>): (r: Result<Match>)
    ensures |scores| == 0 ==> r == Raise(EMPTY_MAX)
    ensures |scores| > 0 ==> r.Ok? && r.value.Best? && (r.value.category, r.value.score) in scores
  {
    if |scores| == 0 then Raise(EMPTY_MAX)
    else
      var i := ArgMax(Values(scores));
      Ok(Best(scores[i].0, scores[i].1))
  }

  /** The result of scoring and selecting, given the article embedding. */
  function ClassifySpec(embedding: Vector, embeddingsDict: Dict<string, Vector>, sqrt: real -> real): (r: Result<Match>)
    requires IsSqrt(sqrt)
    ensures r.Ok? ==> r.value.Best?
  {
    match ScoreWrites(embedding, embeddingsDict, sqrt)
    case Raise(e) => Raise(e)
    case Ok(us) => MaxByScore(Build(us))
  }

  lemma {:induction false} ScoreWritesRaisePersists(embedding: Vector, embeddingsDict: Dict<string, Vector>, sqrt: real -> real, k: nat)
    requires IsSqrt(sqrt)
    requires k <= |embeddingsDict| && ScoreWrites(embedding, embeddingsDict[..k], sqrt).Raise?
    ensures ScoreWrites(embedding, embeddingsDict, sqrt) == ScoreWrites(embedding, embeddingsDict[..k], sqrt)
    decreases |embeddingsDict| - k
  {
    if k < |embeddingsDict| {
      var n := |embeddingsDict| - 1;
      assert embeddingsDict[..n][..k] == embeddingsDict[..k];
      ScoreWritesRaisePersists(embedding, embeddingsDict[..n], sqrt, k);
    } else {
      assert embeddingsDict[..k] == embeddingsDict;
    }
  }

  /** The loop over `embeddings_dict.items()` and the `max` that follows it. */
  method Classify(embedding: Vector, embeddingsDict: Dict<string, Vector>, sqrt: real -> real) returns (r: Result<Match>)
    requires IsSqrt(sqrt)
    ensures r == ClassifySpec(embedding, embeddingsDict, sqrt)
  {
    var similarityScores: Dict<string, Score> := [];
    ghost var us: seq<Option<(string, Score)>> := [];
    for i := 0 to |embeddingsDict|
      invariant ScoreWrites(embedding, embeddingsDict[..i], sqrt) == Ok(us)
      invariant similarityScores == Build(us)
    {
      var (category, avgEmbedding) := embeddingsDict[i];
      assert embeddingsDict[..i + 1][..i] == embeddingsDict[..i];
      var score := CosineSimilarity(embedding, avgEmbedding, sqrt);
      if score.Raise? {
        ScoreWritesRaisePersists(embedding, embeddingsDict, sqrt, i + 1);
        return Raise(score.exception);
      }
      similarityScores := Put(similarityScores, category, score.value);
      us := us + [Some((category, score.value))];
    }
    assert embeddingsDict[..|embeddingsDict|] == embeddingsDict;
    r := MaxByScore(similarityScores);
  }

  /** Every category embedding has the article embedding's length. */
  predicate Aligned(embedding: Vector, embeddingsDict: Dict<string, Vector>)
  {
    forall i :: 0 <= i < |embeddingsDict| ==> |embeddingsDict[i].1| == |embedding|
  }

  /** The scores, in dict order. */
  function ScoreList(embedding: Vector, embeddingsDict: Dict<string, Vector>, sqrt: real -> real): (ss: seq<Score>)
    requires IsSqrt(sqrt) && Aligned(embedding, embeddingsDict)
    ensures |ss| == |embeddingsDict|
  {
    seq(|embeddingsDict|, i requires 0 <= i < |embeddingsDict| => CosineSimilarity(embedding, embeddingsDict[i].1, sqrt).value)
  }

  /**
   * With aligned vectors the loop never raises, and over a dict (unique
   * keys) the scores dict has the same keys in the same order.
   */
  lemma {:induction false} ScoresInOrder(embedding: Vector, embeddingsDict: Dict<string, Vector>, sqrt: real -> real)
    requires IsSqrt(sqrt) && Aligned(embedding, embeddingsDict)
    ensures ScoreWrites(embedding, embeddingsDict, sqrt).Ok?
    ensures var us := ScoreWrites(embedding, embeddingsDict, sqrt).value;
            |us| == |embeddingsDict| &&
            forall i :: 0 <= i < |embeddingsDict| ==>
              us[i] == Some((embeddingsDict[i].0, ScoreList(embedding, embeddingsDict, sqrt)[i]))
  {
    if embeddingsDict != [] {
      var n := |embeddingsDict| - 1;
      assert Aligned(embedding, embeddingsDict[..n]);
      ScoresInOrder(embedding, embeddingsDict[..n], sqrt);
      assert forall i :: 0 <= i < n ==> embeddingsDict[..n][i] == embeddingsDict[i];
    }
  }

  lemma ScoresDict(embedding: Vector, embeddingsDict: Dict<string, Vector>, sqrt: real -> real)
    requires IsSqrt(sqrt) && Aligned(embedding, embeddingsDict) && UniqueKeys(embeddingsDict)
    ensures ScoreWrites(embedding, embeddingsDict, sqrt).Ok?
    ensures var scores := Build(ScoreWrites(embedding, embeddingsDict, sqrt).value);
            |scores| == |embeddingsDict| &&
            forall i :: 0 <= i < |embeddingsDict| ==>
              scores[i] == (embeddingsDict[i].0, ScoreList(embedding, embeddingsDict, sqrt)[i])
  {
    ScoresInOrder(embedding, embeddingsDict, sqrt);
    var us := ScoreWrites(embedding, embeddingsDict, sqrt).value;
    WrittenAllSome(us);
    BuildDistinctWrites(us);
  }

  /** An empty dict makes `max` raise. */
  lemma ClassifyEmpty(embedding: Vector, sqrt: real -> real)
    requires IsSqrt(sqrt)
    ensures ClassifySpec(embedding, [], sqrt) == Raise(EMPTY_MAX)
  {
  }

  /** The first category embedding of another length makes `np.dot` raise. */
  lemma {:induction false} ClassifyMisaligned(embedding: Vector, embeddingsDict: Dict<string, Vector>, sqrt: real -> real, k: nat)
    requires IsSqrt(sqrt) && k < |embeddingsDict| && |embeddingsDict[k].1| != |embedding|
    requires Aligned(embedding, embeddingsDict[..k])
    ensures ClassifySpec(embedding, embeddingsDict, sqrt) == Raise(NOT_ALIGNED)
  {
    ScoresInOrder(embedding, embeddingsDict[..k], sqrt);
    assert embeddingsDict[..k + 1][..k] == embeddingsDict[..k];
    ScoreWritesRaisePersists(embedding, embeddingsDict, sqrt, k + 1);
  }

  /**
   * Over a non-empty dict of aligned vectors whose scores are all numbers,
   * the result is a category of greatest score with that score, and the
   * first such category in dict order.
   */
  lemma ClassifyFirstMaximum(embedding: Vector, embeddingsDict: Dict<string, Vector>, sqrt: real -> real)
    requires IsSqrt(sqrt) && Aligned(embedding, embeddingsDict) && UniqueKeys(embeddingsDict)
    requires |embeddingsDict| > 0
    requires forall i :: 0 <= i < |embeddingsDict| ==> ScoreList(embedding, embeddingsDict, sqrt)[i].Num?
    ensures var r := ClassifySpec(embedding, embeddingsDict, sqrt);
            var ss := ScoreList(embedding, embeddingsDict, sqrt);
            r.Ok? && r.value.Best? &&
            exists i :: 0 <= i < |embeddingsDict| && r.value == Best(embeddingsDict[i].0, ss[i]) &&
                        (forall k :: 0 <= k < |ss| ==> ss[k].value <= ss[i].value) &&
                        (forall k :: 0 <= k < i ==> ss[k].value < ss[i].value)
  {
    ScoresDict(embedding, embeddingsDict, sqrt);
    var ss := ScoreList(embedding, embeddingsDict, sqrt);
    var scores := Build(ScoreWrites(embedding, embeddingsDict, sqrt).value);
    assert Values(scores) == ss;
    ArgMaxIsFirstMaximum(ss);
  }

  /**
   * An article whose embedding is one of the category embeddings, all of
   * them non-zero, is classified with score 1 (under the first category
   * that scores 1).
   */
  lemma ClassifySelf(embeddingsDict: Dict<string, Vector>, sqrt: real -> real, k: nat)
    requires IsSqrt(sqrt) && UniqueKeys(embeddingsDict) && k < |embeddingsDict|
    requires Aligned(embeddingsDict[k].1, embeddingsDict)
    requires forall i :: 0 <= i < |embeddingsDict| ==> NormSq(embeddingsDict[i].1) > 0.0
    ensures var r := ClassifySpec(embeddingsDict[k].1, embeddingsDict, sqrt);
            r.Ok? && r.value.Best? && r.value.score == Num(1.0)
  {
    var e := embeddingsDict[k].1;
    var ss := ScoreList(e, embeddingsDict, sqrt);
    forall i | 0 <= i < |embeddingsDict| ensures ss[i].Num? && ss[i].value <= 1.0 {
      CosineBounds(e, embeddingsDict[i].1, sqrt);
    }
    CosineSelf(e, sqrt);
    assert ss[k] == Num(1.0);
    ClassifyFirstMaximum(e, embeddingsDict, sqrt);
  }
}
