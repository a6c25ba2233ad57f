/**
 * The category centroids of the vector store: the global mean embedding and
 * the mean-centred centroid of every rubric, optionally leaving one example
 * out (`_calculate_global_mean_embedding` and `get_category_embeddings`).
 */
module Centroids {
  import opened Wrappers
  import opened VectorMath
  import opened Dicts
  import opened Corpus

  const MISSING_EMBEDDING := Exception(KeyError, "'embedding'")
  const NO_EMBEDDINGS := Exception(IndexError, "list index out of range")

  /**
   * `_calculate_global_mean_embedding`: the mean of every example embedding.
   * With no example at all the fallback branch indexes an empty list.
   */
  function GlobalMean(corpus: Corpus): (r: Result<Vector>)
    ensures !Embedded(corpus) ==> r == Raise(MISSING_EMBEDDING)
    ensures Embedded(corpus) && TotalCount(corpus) == 0 ==> r == Raise(NO_EMBEDDINGS)
    ensures Embedded(corpus) && TotalCount(corpus) > 0 ==> r == NpMean(AllEmbeddings(corpus))
  {
    if !Embedded(corpus) then Raise(MISSING_EMBEDDING)
    else
      var embeddings := AllEmbeddings(corpus);
      if |embeddings| > 0 then NpMean(embeddings) else Raise(NO_EMBEDDINGS)
  }

  /**
   * A global mean exists only when every example has an embedding of its
   * length.
   */
  lemma GlobalMeanFits(corpus: Corpus, gm: Vector)
    requires GlobalMean(corpus) == Ok(gm)
    ensures Fits(corpus, |gm|) && TotalCount(corpus) > 0
    ensures AllOfLength(AllEmbeddings(corpus), |gm|)
  {
    assert Embedded(corpus) && TotalCount(corpus) > 0;
    var vs := AllEmbeddings(corpus);
    assert NpMean(vs) == Ok(gm);
    assert AllOfLength(vs, |gm|);
    forall s, a | 0 <= s < |corpus| && a in corpus[s].examples
      ensures a.embedding.Some? && |a.embedding.value| == |gm|
    {
      AllEmbeddingsContain(corpus, s, a);
      var k :| 0 <= k < |vs| && vs[k] == a.embedding.value;
    }
  }

  /**
   * The example `(exclude_rubric, exclude_title)` names; a missing rubric or
   * title excludes nothing, since no rubric or title equals None.
   */
  predicate Excluded(rubric: string, a: Article, excludeRubric: Option<string>, excludeTitle: Option<string>)
  {
    excludeRubric == Some(rubric) && excludeTitle == Some(a.title)
  }

  /** The examples of a rubric that the filter keeps, in order. */
  function Survivors(rubric: string, examples: seq<Article>, excludeRubric: Option<string>, excludeTitle: Option<string>): (r: seq<Article>)
    ensures |r| <= |examples|
    ensures excludeRubric != Some(rubric) || excludeTitle.None? ==> r == examples
  {
    if examples == [] then []
    else
      var n := |examples| - 1;
      var rest := Survivors(rubric, examples[..n], excludeRubric, excludeTitle);
      assert examples == examples[..n] + [examples[n]];
      if Excluded(rubric, examples[n], excludeRubric, excludeTitle) then rest else rest + [examples[n]]
  }

  /** The filter keeps exactly the examples that are not excluded. */
  lemma {:induction false} SurvivorsMembers(rubric: string, examples: seq<Article>, excludeRubric: Option<string>, excludeTitle: Option<string>)
    ensures forall a :: a in Survivors(rubric, examples, excludeRubric, excludeTitle) <==>
                        a in examples && !Excluded(rubric, a, excludeRubric, excludeTitle)
  {
    if examples != [] {
      var n := |examples| - 1;
      SurvivorsMembers(rubric, examples[..n], excludeRubric, excludeTitle);
      assert examples == examples[..n] + [examples[n]];
    }
  }

  /**
   * `[np.array(ex["embedding"]) - global_mean for ex in examples if not excluded]`
   */
  function CenteredSurvivors(section: Section, gm: Vector, excludeRubric: Option<string>, excludeTitle: Option<string>): (cs: seq<Vector>)
    requires ArticlesFit(section.examples, |gm|)
    ensures |cs| == |Survivors(section.rubric, section.examples, excludeRubric, excludeTitle)|
    ensures AllOfLength(cs, |gm|)
  {
    var kept := Survivors(section.rubric, section.examples, excludeRubric, excludeTitle);
    SurvivorsMembers(section.rubric, section.examples, excludeRubric, excludeTitle);
    SectionEmbeddingsFit(kept, |gm|);
    Centered(SectionEmbeddings(kept), gm)
  }

  /** What one section writes into the result: its centroid, when an example survives. */
  function SectionCentroid(section: Section, gm: Vector, excludeRubric: Option<string>, excludeTitle: Option<string>): (u: Option<(string, Vector)>)
    requires ArticlesFit(section.examples, |gm|)
    ensures u.Some? <==> |Survivors(section.rubric, section.examples, excludeRubric, excludeTitle)| > 0
    ensures u.Some? ==> u.value.0 == section.rubric && |u.value.1| == |gm|
  {
    var cs := CenteredSurvivors(section, gm, excludeRubric, excludeTitle);
    if |cs| == 0 then None else Some((section.rubric, Mean(cs, |gm|)))
  }

  function Writes(corpus: Corpus, gm: Vector, excludeRubric: Option<string>, excludeTitle: Option<string>): (us: seq<Option<(string, Vector)>>)
    requires Fits(corpus, |gm|)
    ensures |us| == |corpus|
  {
    seq(|corpus|, s requires 0 <= s < |corpus| => SectionCentroid(corpus[s], gm, excludeRubric, excludeTitle))
  }

  /** The dict `get_category_embeddings` returns, as the sections write it in order. */
  function CategoryEmbeddingsSpec(corpus: Corpus, gm: Vector, excludeRubric: Option<string>, excludeTitle: Option<string>): (d: Dict<string, Vector>)
    requires Fits(corpus, |gm|)
    ensures UniqueKeys(d)
  {
    BuildUniqueKeys(Writes(corpus, gm, excludeRubric, excludeTitle));
    Build(Writes(corpus, gm, excludeRubric, excludeTitle))
  }

  /**
   * `get_category_embeddings`, given the store's corpus and its global mean:
   * every example embedding has the global mean's length (GlobalMeanFits).
   */
  method GetCategoryEmbeddings(corpus: Corpus, gm: Vector, excludeRubric: Option<string>, excludeTitle: Option<string>)
    returns (categoryEmbeddings: Dict<string, Vector>)
    requires Fits(corpus, |gm|)
    ensures categoryEmbeddings == CategoryEmbeddingsSpec(corpus, gm, excludeRubric, excludeTitle)
  {
    ghost var us := Writes(corpus, gm, excludeRubric, excludeTitle);
    categoryEmbeddings := [];
    for s := 0 to |corpus|
      invariant categoryEmbeddings == Build(us[..s])
    {
      var section := corpus[s];
      var embeddings := CenteredSurvivors(section, gm, excludeRubric, excludeTitle);
      BuildStep(us, s);
      if |embeddings| > 0 {
        NpMeanOfFit(embeddings, |gm|);
        var average := NpMean(embeddings);
        categoryEmbeddings := Put(categoryEmbeddings, section.rubric, average.value);
      }
    }
    assert us[..|corpus|] == us;
  }

  /** What section s writes: its rubric, exactly when one of its examples survives. */
  lemma WritesAt(corpus: Corpus, gm: Vector, excludeRubric: Option<string>, excludeTitle: Option<string>, s: nat)
    requires Fits(corpus, |gm|) && s < |corpus|
    ensures var u := Writes(corpus, gm, excludeRubric, excludeTitle)[s];
            (u.Some? <==> |Survivors(corpus[s].rubric, corpus[s].examples, excludeRubric, excludeTitle)| > 0) &&
            (u.Some? ==> u.value.0 == corpus[s].rubric)
  {
    assert Writes(corpus, gm, excludeRubric, excludeTitle)[s] == SectionCentroid(corpus[s], gm, excludeRubric, excludeTitle);
  }

  /** A rubric is a key exactly when some section of that rubric keeps an example. */
  lemma CategoryKeys(corpus: Corpus, gm: Vector, excludeRubric: Option<string>, excludeTitle: Option<string>, rubric: string)
    requires Fits(corpus, |gm|)
    ensures rubric in Keys(CategoryEmbeddingsSpec(corpus, gm, excludeRubric, excludeTitle)) <==>
            exists s :: 0 <= s < |corpus| && corpus[s].rubric == rubric &&
                        |Survivors(rubric, corpus[s].examples, excludeRubric, excludeTitle)| > 0
  {
    var us := Writes(corpus, gm, excludeRubric, excludeTitle);
    BuildGet(us, rubric);
    LastValueSome(us, rubric);
    if exists s :: 0 <= s < |corpus| && corpus[s].rubric == rubric &&
                   |Survivors(rubric, corpus[s].examples, excludeRubric, excludeTitle)| > 0 {
      var s :| 0 <= s < |corpus| && corpus[s].rubric == rubric &&
               |Survivors(rubric, corpus[s].examples, excludeRubric, excludeTitle)| > 0;
      WritesAt(corpus, gm, excludeRubric, excludeTitle, s);
    }
    if exists i :: 0 <= i < |us| && us[i].Some? && us[i].value.0 == rubric {
      var i :| 0 <= i < |us| && us[i].Some? && us[i].value.0 == rubric;
      WritesAt(corpus, gm, excludeRubric, excludeTitle, i);
    }
  }

  /**
   * The value under a rubric is the centroid of the last section of that
   * rubric that keeps an example.
   */
  lemma CategoryValue(corpus: Corpus, gm: Vector, excludeRubric: Option<string>, excludeTitle: Option<string>, rubric: string)
    requires Fits(corpus, |gm|)
    requires rubric in Keys(CategoryEmbeddingsSpec(corpus, gm, excludeRubric, excludeTitle))
    ensures exists s :: 0 <= s < |corpus| && corpus[s].rubric == rubric &&
                        SectionCentroid(corpus[s], gm, excludeRubric, excludeTitle) ==
                          Some((rubric, Get(CategoryEmbeddingsSpec(corpus, gm, excludeRubric, excludeTitle), rubric).value)) &&
                        forall t :: s < t < |corpus| && corpus[t].rubric == rubric ==>
                          SectionCentroid(corpus[t], gm, excludeRubric, excludeTitle).None?
  {
    var us := Writes(corpus, gm, excludeRubric, excludeTitle);
    var d := CategoryEmbeddingsSpec(corpus, gm, excludeRubric, excludeTitle);
    BuildGet(us, rubric);
    var v := Get(d, rubric).value;
    LastValueIsLast(us, rubric);
    var s :| 0 <= s < |us| && us[s] == Some((rubric, v)) &&
             (forall t :: s < t < |us| ==> !(us[t].Some? && us[t].value.0 == rubric));
    assert corpus[s].rubric == rubric;
    forall t | s < t < |corpus| && corpus[t].rubric == rubric
      ensures SectionCentroid(corpus[t], gm, excludeRubric, excludeTitle).None?
    {
      assert us[t] == SectionCentroid(corpus[t], gm, excludeRubric, excludeTitle);
    }
  }

  /** Leaving out a section's only example drops the section from the result. */
  lemma ExcludeOnlyExample(section: Section, gm: Vector, title: string)
    requires ArticlesFit(section.examples, |gm|)
    requires |section.examples| == 1 && section.examples[0].title == title
    ensures SectionCentroid(section, gm, Some(section.rubric), Some(title)) == None
  {
    SurvivorsMembers(section.rubric, section.examples, Some(section.rubric), Some(title));
  }

  /** Leaving an example out keeps all the others, whatever their position. */
  lemma ExcludeKeepsOthers(section: Section, title: string, a: Article)
    requires a in section.examples && a.title != title
    ensures a in Survivors(section.rubric, section.examples, Some(section.rubric), Some(title))
  {
    SurvivorsMembers(section.rubric, section.examples, Some(section.rubric), Some(title));
  }

  /** The centroid of a whole section, centred on gm. */
  function Centroid(section: Section, gm: Vector): Vector
    requires ArticlesFit(section.examples, |gm|) && |section.examples| > 0
  {
    Mean(Centered(SectionEmbeddings(section.examples), gm), |gm|)
  }

  predicate DistinctRubrics(corpus: Corpus)
  {
    forall s, t :: 0 <= s < t < |corpus| ==> corpus[s].rubric != corpus[t].rubric
  }

  predicate NoEmptySection(corpus: Corpus)
  {
    forall s :: 0 <= s < |corpus| ==> |corpus[s].examples| > 0
  }

  /** With nothing left out, a section writes its centroid exactly when it has examples. */
  lemma SectionCentroidWhole(section: Section, gm: Vector)
    requires ArticlesFit(section.examples, |gm|)
    ensures SectionCentroid(section, gm, None, None) ==
            if |section.examples| == 0 then None else Some((section.rubric, Centroid(section, gm)))
  {
    assert Survivors(section.rubric, section.examples, None, None) == section.examples;
  }

  /** The (rubric, centroid) items of the sections that have examples, in corpus order. */
  function NonEmptyCentroids(corpus: Corpus, gm: Vector): (d: Dict<string, Vector>)
    requires Fits(corpus, |gm|)
    ensures |d| <= |corpus|
    ensures forall i :: 0 <= i < |d| ==> |d[i].1| == |gm|
  {
    if corpus == [] then []
    else
      var n := |corpus| - 1;
      NonEmptyCentroids(corpus[..n], gm) +
        (if |corpus[n].examples| == 0 then [] else [(corpus[n].rubric, Centroid(corpus[n], gm))])
  }

  /** Every item is the centroid of a section that has examples. */
  lemma {:induction false} NonEmptyCentroidsFrom(corpus: Corpus, gm: Vector)
    requires Fits(corpus, |gm|)
    ensures forall i :: 0 <= i < |NonEmptyCentroids(corpus, gm)| ==>
              exists s :: 0 <= s < |corpus| && |corpus[s].examples| > 0 && NonEmptyCentroids(corpus, gm)[i] == (corpus[s].rubric, Centroid(corpus[s], gm))
  {
    if corpus != [] {
      var n := |corpus| - 1;
      var p := corpus[..n];
      NonEmptyCentroidsFrom(p, gm);
      var dp := NonEmptyCentroids(p, gm);
      var d := NonEmptyCentroids(corpus, gm);
      forall i | 0 <= i < |d|
        ensures exists s :: 0 <= s < |corpus| && |corpus[s].examples| > 0 && d[i] == (corpus[s].rubric, Centroid(corpus[s], gm))
      {
        if i < |dp| {
          var s :| 0 <= s < n && |p[s].examples| > 0 && dp[i] == (p[s].rubric, Centroid(p[s], gm));
          assert p[s] == corpus[s] && d[i] == dp[i];
        } else {
          assert d[i] == (corpus[n].rubric, Centroid(corpus[n], gm));
        }
      }
    } else {
      assert NonEmptyCentroids(corpus, gm) == [];
    }
  }

  /** Every section that has examples has its centroid among the items of d. */
  ghost predicate CoversSections(corpus: Corpus, gm: Vector, d: Dict<string, Vector>)
    requires Fits(corpus, |gm|)
  {
    forall s :: 0 <= s < |corpus| && |corpus[s].examples| > 0 ==>
      exists i :: 0 <= i < |d| && d[i] == (corpus[s].rubric, Centroid(corpus[s], gm))
  }

  /** Every section that has examples has its centroid among the items. */
  lemma {:induction false} NonEmptyCentroidsCover(corpus: Corpus, gm: Vector)
    requires Fits(corpus, |gm|)
    ensures CoversSections(corpus, gm, NonEmptyCentroids(corpus, gm))
  {
    if corpus != [] {
      var n := |corpus| - 1;
      var p := corpus[..n];
      NonEmptyCentroidsCover(p, gm);
      var dp := NonEmptyCentroids(p, gm);
      var d := NonEmptyCentroids(corpus, gm);
      forall s | 0 <= s < |corpus| && |corpus[s].examples| > 0
        ensures exists i :: 0 <= i < |d| && d[i] == (corpus[s].rubric, Centroid(corpus[s], gm))
      {
        if s < n {
          assert p[s] == corpus[s];
          var i :| 0 <= i < |dp| && dp[i] == (p[s].rubric, Centroid(p[s], gm));
          assert d[i] == dp[i];
        } else {
          assert d[|dp|] == (corpus[n].rubric, Centroid(corpus[n], gm));
        }
      }
    } else {
      assert NonEmptyCentroids(corpus, gm) == [];
    }
  }

  /** Every key is the rubric of some section. */
  lemma {:induction false} NonEmptyCentroidsKeys(corpus: Corpus, gm: Vector)
    requires Fits(corpus, |gm|)
    ensures forall i :: 0 <= i < |NonEmptyCentroids(corpus, gm)| ==> exists s :: 0 <= s < |corpus| && NonEmptyCentroids(corpus, gm)[i].0 == corpus[s].rubric
  {
    if corpus != [] {
      var n := |corpus| - 1;
      var p := corpus[..n];
      NonEmptyCentroidsKeys(p, gm);
      var dp := NonEmptyCentroids(p, gm);
      var d := NonEmptyCentroids(corpus, gm);
      forall i | 0 <= i < |d| ensures exists s :: 0 <= s < |corpus| && d[i].0 == corpus[s].rubric {
        if i < |dp| {
          var s :| 0 <= s < n && dp[i].0 == p[s].rubric;
          assert p[s] == corpus[s] && d[i] == dp[i];
        } else {
          assert d[i].0 == corpus[n].rubric;
        }
      }
    } else {
      assert NonEmptyCentroids(corpus, gm) == [];
    }
  }

  /** Distinct rubric names give distinct keys. */
  lemma {:induction false} NonEmptyCentroidsUnique(corpus: Corpus, gm: Vector)
    requires Fits(corpus, |gm|) && DistinctRubrics(corpus)
    ensures UniqueKeys(NonEmptyCentroids(corpus, gm))
  {
    if corpus != [] {
      var n := |corpus| - 1;
      var p := corpus[..n];
      NonEmptyCentroidsUnique(p, gm);
      NonEmptyCentroidsKeys(p, gm);
      var dp := NonEmptyCentroids(p, gm);
      var d := NonEmptyCentroids(corpus, gm);
      assert d[..|dp|] == dp;
      forall i, k | 0 <= i < k < |d| ensures d[i].0 != d[k].0 {
        assert d[i] == dp[i];
        if k < |dp| {
          assert d[k] == dp[k];
        } else {
          var s :| 0 <= s < n && dp[i].0 == p[s].rubric;
          assert d[k].0 == corpus[n].rubric && p[s] == corpus[s];
        }
      }
    }
  }

  /** With nothing left out, the sections write exactly the items of the non-empty ones. */
  lemma {:induction false} WrittenNonEmpty(corpus: Corpus, gm: Vector)
    requires Fits(corpus, |gm|)
    ensures Written(Writes(corpus, gm, None, None)) == NonEmptyCentroids(corpus, gm)
  {
    if corpus != [] {
      var n := |corpus| - 1;
      var us := Writes(corpus, gm, None, None);
      assert us[..n] == Writes(corpus[..n], gm, None, None);
      WrittenNonEmpty(corpus[..n], gm);
      SectionCentroidWhole(corpus[n], gm);
    }
  }

  /**
   * With nothing left out and distinct rubrics, the result lists the
   * centroid of every section that has examples, in corpus order, and skips
   * the empty sections.
   */
  lemma CategoryEmbeddingsInOrder(corpus: Corpus, gm: Vector)
    requires Fits(corpus, |gm|) && DistinctRubrics(corpus)
    ensures CategoryEmbeddingsSpec(corpus, gm, None, None) == NonEmptyCentroids(corpus, gm)
  {
    var us := Writes(corpus, gm, None, None);
    WrittenNonEmpty(corpus, gm);
    NonEmptyCentroidsUnique(corpus, gm);
    BuildDistinctWrites(us);
  }

  /** When no section is empty, the items are the sections themselves, one by one. */
  lemma {:induction false} NonEmptyCentroidsAll(corpus: Corpus, gm: Vector)
    requires Fits(corpus, |gm|) && NoEmptySection(corpus)
    ensures var d := NonEmptyCentroids(corpus, gm);
            |d| == |corpus| &&
            forall s :: 0 <= s < |corpus| ==> d[s] == (corpus[s].rubric, Centroid(corpus[s], gm))
  {
    if corpus != [] {
      var n := |corpus| - 1;
      var p := corpus[..n];
      assert NoEmptySection(p);
      NonEmptyCentroidsAll(p, gm);
      var d := NonEmptyCentroids(corpus, gm);
      forall s | 0 <= s < |corpus| ensures d[s] == (corpus[s].rubric, Centroid(corpus[s], gm)) {
        if s < n {
          assert d[s] == NonEmptyCentroids(p, gm)[s] && p[s] == corpus[s];
        }
      }
    }
  }

  /**
   * With nothing left out, distinct rubrics and no empty section, the result
   * has one entry per section, in corpus order.
   */
  lemma CategoryEmbeddingsEverySection(corpus: Corpus, gm: Vector)
    requires Fits(corpus, |gm|) && DistinctRubrics(corpus) && NoEmptySection(corpus)
    ensures var d := CategoryEmbeddingsSpec(corpus, gm, None, None);
            |d| == |corpus| &&
            forall s :: 0 <= s < |corpus| ==> d[s] == (corpus[s].rubric, Centroid(corpus[s], gm))
  {
    CategoryEmbeddingsInOrder(corpus, gm);
    NonEmptyCentroidsAll(corpus, gm);
  }

  /**
   * The sum over sections of each centroid weighted by its number of
   * examples; a section without examples has no centroid and adds nothing.
   */
  function WeightedCentroidSum(corpus: Corpus, gm: Vector, j: nat): real
    requires Fits(corpus, |gm|) && j < |gm|
  {
    if corpus == [] then 0.0
    else
      var n := |corpus| - 1;
      WeightedCentroidSum(corpus[..n], gm, j) + SectionWeight(corpus[n], gm, j)
  }

  /** A section's centroid weighted by its number of examples, or nothing when it has none. */
  function SectionWeight(section: Section, gm: Vector, j: nat): real
    requires ArticlesFit(section.examples, |gm|) && j < |gm|
  {
    if |section.examples| == 0 then 0.0 else (|section.examples| as real) * Centroid(section, gm)[j]
  }

  /** How many examples the corpus files under rubric k. */
  function RubricCount(corpus: Corpus, k: string): nat
  {
    if corpus == [] then 0
    else
      var n := |corpus| - 1;
      RubricCount(corpus[..n], k) + (if corpus[n].rubric == k then |corpus[n].examples| else 0)
  }

  lemma {:induction false} RubricCountAbsent(corpus: Corpus, k: string)
    requires forall s :: 0 <= s < |corpus| ==> corpus[s].rubric != k
    ensures RubricCount(corpus, k) == 0
  {
    if corpus != [] {
      RubricCountAbsent(corpus[..|corpus| - 1], k);
    }
  }

  /** With distinct rubrics, a rubric's count is the size of its one section. */
  lemma {:induction false} RubricCountDistinct(corpus: Corpus, s: nat)
    requires DistinctRubrics(corpus) && s < |corpus|
    ensures RubricCount(corpus, corpus[s].rubric) == |corpus[s].examples|
  {
    var n := |corpus| - 1;
    var p := corpus[..n];
    if s == n {
      RubricCountAbsent(p, corpus[s].rubric);
    } else {
      assert p[s] == corpus[s];
      RubricCountDistinct(p, s);
    }
  }

  /** The sum over a dict's items of (their rubric's example count × their j-th component). */
  function DictWeightedSum(corpus: Corpus, d: Dict<string, Vector>, j: nat): real
    requires forall i :: 0 <= i < |d| ==> j < |d[i].1|
  {
    if d == [] then 0.0
    else
      var n := |d| - 1;
      DictWeightedSum(corpus, d[..n], j) + (RubricCount(corpus, d[n].0) as real) * d[n].1[j]
  }

  lemma DictWeightedSumSnoc(corpus: Corpus, d: Dict<string, Vector>, k: string, v: Vector, j: nat)
    requires (forall i :: 0 <= i < |d| ==> j < |d[i].1|) && j < |v|
    ensures DictWeightedSum(corpus, d + [(k, v)], j) == DictWeightedSum(corpus, d, j) + (RubricCount(corpus, k) as real) * v[j]
  {
    assert (d + [(k, v)])[..|d|] == d;
  }

  /** Appending a section's item adds its weighted centroid. */
  lemma DictWeightedSumStep(corpus: Corpus, gm: Vector, d: Dict<string, Vector>, s: nat, j: nat)
    requires Fits(corpus, |gm|) && DistinctRubrics(corpus) && s < |corpus| && |corpus[s].examples| > 0 && j < |gm|
    requires forall i :: 0 <= i < |d| ==> j < |d[i].1|
    ensures DictWeightedSum(corpus, d + [(corpus[s].rubric, Centroid(corpus[s], gm))], j) ==
            DictWeightedSum(corpus, d, j) + SectionWeight(corpus[s], gm, j)
  {
    DictWeightedSumSnoc(corpus, d, corpus[s].rubric, Centroid(corpus[s], gm), j);
    RubricCountDistinct(corpus, s);
  }

  /** Over the first m sections, the dict-level sum is the section-level sum. */
  lemma {:induction false} DictWeightedSumPrefix(corpus: Corpus, gm: Vector, m: nat, j: nat)
    requires Fits(corpus, |gm|) && DistinctRubrics(corpus) && m <= |corpus| && j < |gm|
    ensures DictWeightedSum(corpus, NonEmptyCentroids(corpus[..m], gm), j) == WeightedCentroidSum(corpus[..m], gm, j)
  {
    if m > 0 {
      var p := corpus[..m - 1];
      assert corpus[..m][..m - 1] == p;
      DictWeightedSumPrefix(corpus, gm, m - 1, j);
      assert corpus[..m][m - 1] == corpus[m - 1];
      assert WeightedCentroidSum(corpus[..m], gm, j) == WeightedCentroidSum(p, gm, j) + SectionWeight(corpus[m - 1], gm, j);
      if |corpus[m - 1].examples| > 0 {
        var dp := NonEmptyCentroids(p, gm);
        var d := NonEmptyCentroids(corpus[..m], gm);
        var c := Centroid(corpus[m - 1], gm);
        assert d == dp + [(corpus[m - 1].rubric, c)];
        DictWeightedSumStep(corpus, gm, dp, m - 1, j);
      } else {
        assert NonEmptyCentroids(corpus[..m], gm) == NonEmptyCentroids(p, gm);
      }
    }
  }

  /** The sum over sections of the j-th components of their centred embeddings. */
  function CenteredSum(corpus: Corpus, gm: Vector, j: nat): real
    requires Fits(corpus, |gm|) && j < |gm|
  {
    if corpus == [] then 0.0
    else
      var n := |corpus| - 1;
      CenteredSum(corpus[..n], gm, j) + SectionCenteredSum(corpus[n], gm, j)
  }

  function SectionCenteredSum(section: Section, gm: Vector, j: nat): real
    requires ArticlesFit(section.examples, |gm|) && j < |gm|
  {
    SectionEmbeddingsFit(section.examples, |gm|);
    ComponentSum(Centered(SectionEmbeddings(section.examples), gm), j)
  }

  /** A section's centroid, weighted by its size, is its centred component sum. */
  lemma SectionContribution(section: Section, gm: Vector, j: nat)
    requires ArticlesFit(section.examples, |gm|) && |section.examples| > 0 && j < |gm|
    ensures (|section.examples| as real) * Centroid(section, gm)[j] == SectionCenteredSum(section, gm, j)
  {
    SectionEmbeddingsFit(section.examples, |gm|);
    var es := SectionEmbeddings(section.examples);
    MeanTimesCount(Centered(es, gm), |gm|, j);
    Commute(Mean(Centered(es, gm), |gm|)[j], |section.examples| as real);
  }

  lemma {:induction false} WeightedCentroidSumIsCenteredSum(corpus: Corpus, gm: Vector, j: nat)
    requires Fits(corpus, |gm|) && j < |gm|
    ensures WeightedCentroidSum(corpus, gm, j) == CenteredSum(corpus, gm, j)
  {
    if corpus != [] {
      var n := |corpus| - 1;
      assert Fits(corpus[..n], |gm|);
      WeightedCentroidSumIsCenteredSum(corpus[..n], gm, j);
      if |corpus[n].examples| > 0 {
        SectionContribution(corpus[n], gm, j);
      } else {
        SectionEmbeddingsFit(corpus[n].examples, |gm|);
        assert Centered(SectionEmbeddings(corpus[n].examples), gm) == [];
      }
    }
  }

  lemma {:induction false} CenteredSumIsCenteredTotal(corpus: Corpus, gm: Vector, j: nat)
    requires Fits(corpus, |gm|) && j < |gm|
    ensures AllOfLength(AllEmbeddings(corpus), |gm|)
    ensures CenteredSum(corpus, gm, j) == ComponentSum(AllEmbeddings(corpus), j) - Times(TotalCount(corpus), gm[j])
  {
    AllEmbeddingsFit(corpus, |gm|);
    if corpus != [] {
      var n := |corpus| - 1;
      assert Fits(corpus[..n], |gm|);
      AllEmbeddingsFit(corpus[..n], |gm|);
      CenteredSumIsCenteredTotal(corpus[..n], gm, j);
      SectionCenteredSumValue(corpus[n], gm, j);
      assert AllEmbeddings(corpus) == AllEmbeddings(corpus[..n]) + SectionEmbeddings(corpus[n].examples);
      ComponentSumAppend(AllEmbeddings(corpus[..n]), SectionEmbeddings(corpus[n].examples), j);
      TimesAdd(TotalCount(corpus[..n]), |corpus[n].examples|, gm[j]);
    }
  }

  /** Centring a section's embeddings subtracts its size times the mean. */
  lemma SectionCenteredSumValue(section: Section, gm: Vector, j: nat)
    requires ArticlesFit(section.examples, |gm|) && j < |gm|
    ensures HasEmbedding(section.examples) && AllOfLength(SectionEmbeddings(section.examples), |gm|)
    ensures SectionCenteredSum(section, gm, j) ==
            ComponentSum(SectionEmbeddings(section.examples), j) - Times(|section.examples|, gm[j])
  {
    SectionEmbeddingsFit(section.examples, |gm|);
    ComponentSumCentered(SectionEmbeddings(section.examples), gm, j);
    TimesIsProduct(|section.examples|, gm[j]);
  }

  /** n * x as a repeated sum, which keeps the inductive proofs linear. */
  function Times(n: nat, x: real): real
  {
    if n == 0 then 0.0 else Times(n - 1, x) + x
  }

  lemma {:induction false} TimesIsProduct(n: nat, x: real)
    ensures Times(n, x) == (n as real) * x
  {
    if n > 0 {
      TimesIsProduct(n - 1, x);
      Distribute((n - 1) as real, 1.0, x);
    }
  }

  lemma {:induction false} TimesAdd(m: nat, k: nat, x: real)
    ensures Times(m + k, x) == Times(m, x) + Times(k, x)
  {
    if k > 0 {
      TimesAdd(m, k - 1, x);
    }
  }

  lemma Commute(a: real, b: real)
    ensures a * b == b * a
  {
  }

  lemma Distribute(m: real, k: real, g: real)
    ensures (m + k) * g == m * g + k * g
  {
  }

  /**
   * Centring on the global mean balances the centroids: weighted by their
   * sizes, the centroids of all sections sum to the zero vector.
   */
  lemma CentroidsBalance(corpus: Corpus, gm: Vector, j: nat)
    requires GlobalMean(corpus) == Ok(gm) && j < |gm|
    ensures Fits(corpus, |gm|)
    ensures WeightedCentroidSum(corpus, gm, j) == 0.0
  {
    GlobalMeanFits(corpus, gm);
    WeightedCentroidSumIsCenteredSum(corpus, gm, j);
    CenteredSumIsCenteredTotal(corpus, gm, j);
    GlobalMeanTimesCount(corpus, gm, j);
  }

  /**
   * The same balance read off the returned dict: with the store's own global
   * mean, nothing left out and distinct rubrics, the entries weighted by
   * their rubric's example count sum to zero in every component.
   */
  lemma CategoryEmbeddingsBalance(corpus: Corpus, gm: Vector, j: nat)
    requires GlobalMean(corpus) == Ok(gm) && DistinctRubrics(corpus) && j < |gm|
    ensures Fits(corpus, |gm|)
    ensures var d := CategoryEmbeddingsSpec(corpus, gm, None, None);
            (forall i :: 0 <= i < |d| ==> j < |d[i].1|) && DictWeightedSum(corpus, d, j) == 0.0
  {
    CentroidsBalance(corpus, gm, j);
    CategoryEmbeddingsInOrder(corpus, gm);
    DictWeightedSumPrefix(corpus, gm, |corpus|, j);
    assert corpus[..|corpus|] == corpus;
  }

  /** The global mean, added up once per example, is the total of all embeddings. */
  lemma GlobalMeanTimesCount(corpus: Corpus, gm: Vector, j: nat)
    requires GlobalMean(corpus) == Ok(gm) && j < |gm|
    ensures AllOfLength(AllEmbeddings(corpus), |gm|)
    ensures Times(TotalCount(corpus), gm[j]) == ComponentSum(AllEmbeddings(corpus), j)
  {
    assert Embedded(corpus) && TotalCount(corpus) > 0;
    NpMeanAsTimes(AllEmbeddings(corpus), gm, j);
  }

  lemma NpMeanAsTimes(vs: seq<Vector>, m: Vector, j: nat)
    requires |vs| > 0 && NpMean(vs) == Ok(m) && j < |m|
    ensures AllOfLength(vs, |m|)
    ensures Times(|vs|, m[j]) == ComponentSum(vs, j)
  {
    assert AllOfLength(vs, |m|);
    NpMeanOfFit(vs, |m|);
    MeanTimesCount(vs, |m|, j);
    ProductAsTimes(|vs|, Mean(vs, |m|)[j], ComponentSum(vs, j));
  }

  lemma ProductAsTimes(n: nat, x: real, c: real)
    requires x * (n as real) == c
    ensures Times(n, x) == c
  {
    TimesIsProduct(n, x);
    Commute(x, n as real);
  }
}
