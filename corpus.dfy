/**
 * The rubric corpus: a list of sections, each a rubric and its example
 * articles, as read from the embedded-rubrics JSON file.
 */
module Corpus {
  import opened Wrappers
  import opened VectorMath

  /** An example article; `embedding` is absent until it has been embedded. */
  datatype Article = Article(title: string, summary: string, embedding: Option<Vector>)

  datatype Section = Section(rubric: string, examples: seq<Article>)

  type Corpus = seq<Section>

  predicate HasEmbedding(examples: seq<Article>)
  {
    forall a :: a in examples ==> a.embedding.Some?
  }

  /** Every example of the corpus carries an `embedding` key. */
  predicate Embedded(corpus: Corpus)
  {
    forall s :: 0 <= s < |corpus| ==> HasEmbedding(corpus[s].examples)
  }

  /** Every example carries an embedding of length dim. */
  predicate ArticlesFit(examples: seq<Article>, dim: nat)
  {
    forall a :: a in examples ==> a.embedding.Some? && |a.embedding.value| == dim
  }

  predicate Fits(corpus: Corpus, dim: nat)
  {
    forall s :: 0 <= s < |corpus| ==> ArticlesFit(corpus[s].examples, dim)
  }

  /** `[ex["embedding"] for ex in examples]` */
  function SectionEmbeddings(examples: seq<Article>): (vs: seq<Vector>)
    requires HasEmbedding(examples)
    ensures |vs| == |examples|
    ensures forall i :: 0 <= i < |examples| ==> vs[i] == examples[i].embedding.value
  {
    seq(|examples|, i requires 0 <= i < |examples| => examples[i].embedding.value)
  }

  /** `[ex["embedding"] for section in data for ex in section["examples"]]` */
  function AllEmbeddings(corpus: Corpus): (vs: seq<Vector>)
    requires Embedded(corpus)
    ensures |vs| == TotalCount(corpus)
  {
    if corpus == [] then []
    else AllEmbeddings(corpus[..|corpus| - 1]) + SectionEmbeddings(corpus[|corpus| - 1].examples)
  }

  /** The number of examples over all sections. */
  function TotalCount(corpus: Corpus): nat
  {
    if corpus == [] then 0 else TotalCount(corpus[..|corpus| - 1]) + |corpus[|corpus| - 1].examples|
  }

  /** Every example's embedding is among the corpus's embeddings. */
  lemma {:induction false} AllEmbeddingsContain(corpus: Corpus, s: nat, a: Article)
    requires Embedded(corpus) && s < |corpus| && a in corpus[s].examples
    ensures a.embedding.value in AllEmbeddings(corpus)
  {
    var n := |corpus| - 1;
    if s < n {
      AllEmbeddingsContain(corpus[..n], s, a);
    } else {
      var i :| 0 <= i < |corpus[s].examples| && corpus[s].examples[i] == a;
      assert SectionEmbeddings(corpus[n].examples)[i] == a.embedding.value;
    }
  }

  /** When every example fits dim, so do its embeddings. */
  lemma SectionEmbeddingsFit(examples: seq<Article>, dim: nat)
    requires ArticlesFit(examples, dim)
    ensures HasEmbedding(examples) && AllOfLength(SectionEmbeddings(examples), dim)
  {
    assert forall i :: 0 <= i < |examples| ==> examples[i] in examples;
  }

  /** When every example fits dim, so does the flattened list. */
  lemma {:induction false} AllEmbeddingsFit(corpus: Corpus, dim: nat)
    requires Fits(corpus, dim)
    ensures Embedded(corpus) && AllOfLength(AllEmbeddings(corpus), dim)
  {
    if corpus != [] {
      var n := |corpus| - 1;
      AllEmbeddingsFit(corpus[..n], dim);
      SectionEmbeddingsFit(corpus[n].examples, dim);
    }
  }
}
