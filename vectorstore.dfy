/**
 * The `VectorStore` of vectorstore.py: embedding with truncation, the
 * in-place embedding of a rubric corpus, averaging that survives
 * JSONDecodeError only, and classification of a text.
 *
 * The tokenizer (`tiktoken.get_encoding`) and the embedding provider are
 * parameters; the corpus and the global mean are passed in rather than read
 * from the store's attributes.
 */
module VectorStore {
  import opened Wrappers
  import opened VectorMath
  import opened Dicts
  import opened Config
  import opened Tokenization
  import opened EmbeddingProvider
  import opened Similarity
  import opened Corpus
  import opened AverageEmbeddings
  import opened Classifier

  /** The request `get_embedding` sends: the truncated text, and the model. */
  function EmbeddingRequest(text: string, model: string, maxTokens: int, getEncoding: string -> Encoding): (req: Request)
    ensures req.model == model && req.input.Text?
    ensures var enc := getEncoding(TOKEN_ENCODING);
            exists k :: 0 <= k <= |enc.encode(text)| && (0 <= maxTokens ==> k <= maxTokens) &&
                        req.input.text == enc.decode(enc.encode(text)[..k])
  {
    var enc := getEncoding(TOKEN_ENCODING);
    var r := EncodeWithTruncation(text, maxTokens, enc);
    Request(Text(r.0), model)
  }

  /**
   * `get_embedding`: the first embedding of the provider's answer. Whatever
   * the provider raises propagates; a missing answer raises too, so the
   * result is never None.
   */
  function GetEmbedding(text: string, model: string, maxTokens: int, getEncoding: string -> Encoding, provider: Provider): (r: Result<Vector>)
    ensures var resp := provider(EmbeddingRequest(text, model, maxTokens, getEncoding));
            (r.Ok? <==> resp.Returned? && |resp.data| > 0) &&
            (r.Ok? ==> r.value == resp.data[0]) &&
            (resp.Raised? ==> r == Raise(resp.exception))
  {
    FirstEmbedding(provider(EmbeddingRequest(text, model, maxTokens, getEncoding)))
  }

  /** A text within the limit is sent unchanged when the tokenizer round-trips it. */
  lemma ShortTextSentWhole(text: string, model: string, maxTokens: int, getEncoding: string -> Encoding)
    requires var enc := getEncoding(TOKEN_ENCODING);
             |enc.encode(text)| <= maxTokens && enc.decode(enc.encode(text)) == text
    ensures EmbeddingRequest(text, model, maxTokens, getEncoding) == Request(Text(text), model)
  {
    ShortTextUnchanged(text, maxTokens, getEncoding(TOKEN_ENCODING));
  }

  /** `get_average_embeddings` of vectorstore.py: only JSONDecodeError is caught. */
  method GetAverageEmbeddings(rubricsData: Corpus, model: string, provider: Provider)
    returns (r: Result<Dict<string, Vector>>)
    ensures r == AverageEmbeddingsSpec(rubricsData, model, provider, CatchJsonDecodeError)
  {
    r := AverageEmbeddings.GetAverageEmbeddings(rubricsData, model, provider, CatchJsonDecodeError);
  }

  /**
   * `find_most_similar_category` of vectorstore.py. The embedding is never
   * None, so the `(None, None)` branch is never taken.
   */
  method FindMostSimilarCategory(text: string, embeddingsDict: Dict<string, Vector>,
                                 getEncoding: string -> Encoding, provider: Provider, sqrt: real -> real)
    returns (r: Result<Match>)
    requires IsSqrt(sqrt)
    ensures var e := GetEmbedding(text, EMBEDDING_MODEL, MAX_TOKENS, getEncoding, provider);
            r == if e.Raise? then Raise(e.exception) else ClassifySpec(e.value, embeddingsDict, sqrt)
    ensures r.Ok? ==> r.value.Best?
  {
    var articleEmbedding := GetEmbedding(text, EMBEDDING_MODEL, MAX_TOKENS, getEncoding, provider);
    if articleEmbedding.Raise? {
      return Raise(articleEmbedding.exception);
    }
    r := Classify(articleEmbedding.value, embeddingsDict, sqrt);
  }

  /** The model, token limit, tokenizer and provider `get_and_save_embeddings` works with. */
  datatype Settings = Settings(model: string, maxTokens: int, getEncoding: string -> Encoding, provider: Provider)

  /**
   * The vector `get_and_save_embeddings` stores for one article: the
   * embedding of its truncated summary, requested with the (text, count)
   * pair as input.
   */
  function SummaryEmbedding(a: Article, cfg: Settings): Result<Vector>
  {
    var t := EncodeWithTruncation(a.summary, cfg.maxTokens, cfg.getEncoding(TOKEN_ENCODING));
    FirstEmbedding(cfg.provider(Request(TextAndCount(t.0, t.1), cfg.model)))
  }

  /** Puts `p` in front of the articles or sections of a partial run. */
  function Prepend<T>(p: seq<T>, r: (seq<T>, Option<Exception>)): (seq<T>, Option<Exception>)
  {
    (p + r.0, r.1)
  }

  lemma PrependNothing<T>(p: seq<T>, r: (seq<T>, Option<Exception>))
    requires p == []
    ensures Prepend(p, r) == r
  {
    assert p + r.0 == r.0;
  }

  /**
   * The examples of one section after the inner loop, and the exception that
   * stopped it: each article in turn gets its embedding, and the first
   * failure leaves it and the later ones as they were.
   */
  function EmbedExamples(examples: seq<Article>, cfg: Settings): (seq<Article>, Option<Exception>)
  {
    if |examples| == 0 then ([], None)
    else match SummaryEmbedding(examples[0], cfg)
      case Raise(e) => (examples, Some(e))
      case Ok(v) => Prepend([examples[0].(embedding := Some(v))], EmbedExamples(examples[1..], cfg))
  }

  /** The whole corpus after the outer loop, and the exception that stopped it. */
  function EmbedCorpus(corpus: Corpus, cfg: Settings): (r: (Corpus, Option<Exception>))
    ensures |r.0| == |corpus|
  {
    if |corpus| == 0 then ([], None)
    else
      var r := EmbedExamples(corpus[0].examples, cfg);
      var first := corpus[0].(examples := r.0);
      if r.1.Some? then ([first] + corpus[1..], r.1)
      else Prepend([first], EmbedCorpus(corpus[1..], cfg))
  }

  /** One more article handled by the inner loop. */
  lemma EmbedExamplesStep(examples: seq<Article>, cur: seq<Article>, i: nat, v: Vector,
                          cfg: Settings)
    requires i < |examples| == |cur| && cur[i..] == examples[i..]
    requires SummaryEmbedding(examples[i], cfg) == Ok(v)
    requires EmbedExamples(examples, cfg)
             == Prepend(cur[..i], EmbedExamples(examples[i..], cfg))
    ensures var next := cur[i := examples[i].(embedding := Some(v))];
            next[i + 1..] == examples[i + 1..] &&
            EmbedExamples(examples, cfg)
            == Prepend(next[..i + 1], EmbedExamples(examples[i + 1..], cfg))
  {
    var a := examples[i].(embedding := Some(v));
    var next := cur[i := a];
    var rest := EmbedExamples(examples[i + 1..], cfg);
    assert examples[i..][0] == examples[i] && examples[i..][1..] == examples[i + 1..];
    assert EmbedExamples(examples[i..], cfg) == Prepend([a], rest);
    assert next[..i + 1] == cur[..i] + [a];
    assert cur[..i] + ([a] + rest.0) == next[..i + 1] + rest.0;
    assert next[i + 1..] == cur[i..][1..];
  }

  /** The inner loop stopped by an exception: the examples are as the loop left them. */
  lemma EmbedExamplesStops(examples: seq<Article>, cur: seq<Article>, i: nat, e: Exception,
                             cfg: Settings)
    requires i < |examples| == |cur| && cur[i..] == examples[i..]
    requires SummaryEmbedding(examples[i], cfg) == Raise(e)
    requires EmbedExamples(examples, cfg)
             == Prepend(cur[..i], EmbedExamples(examples[i..], cfg))
    ensures EmbedExamples(examples, cfg) == (cur, Some(e))
  {
    assert examples[i..][0] == examples[i];
    assert cur[..i] + examples[i..] == cur;
  }

  /** One more section handled by the outer loop. */
  lemma EmbedCorpusStep(corpus: Corpus, cur: Corpus, s: nat,
                        cfg: Settings)
    requires s < |corpus| == |cur| && cur[s + 1..] == corpus[s + 1..]
    requires var r := EmbedExamples(corpus[s].examples, cfg);
             r.1.None? && cur[s] == corpus[s].(examples := r.0)
    requires EmbedCorpus(corpus, cfg)
             == Prepend(cur[..s], EmbedCorpus(corpus[s..], cfg))
    ensures EmbedCorpus(corpus, cfg)
            == Prepend(cur[..s + 1], EmbedCorpus(corpus[s + 1..], cfg))
  {
    var rest := EmbedCorpus(corpus[s + 1..], cfg);
    assert corpus[s..][0] == corpus[s] && corpus[s..][1..] == corpus[s + 1..];
    assert EmbedCorpus(corpus[s..], cfg) == Prepend([cur[s]], rest);
    assert cur[..s + 1] == cur[..s] + [cur[s]];
    assert cur[..s] + ([cur[s]] + rest.0) == cur[..s + 1] + rest.0;
  }

  /** The outer loop stopped by an exception inside section `s`. */
  lemma EmbedCorpusStops(corpus: Corpus, cur: Corpus, s: nat, e: Exception,
                           cfg: Settings)
    requires s < |corpus| == |cur| && cur[s + 1..] == corpus[s + 1..]
    requires var r := EmbedExamples(corpus[s].examples, cfg);
             r.1 == Some(e) && cur[s] == corpus[s].(examples := r.0)
    requires EmbedCorpus(corpus, cfg)
             == Prepend(cur[..s], EmbedCorpus(corpus[s..], cfg))
    ensures EmbedCorpus(corpus, cfg) == (cur, Some(e))
  {
    assert corpus[s..][0] == corpus[s] && corpus[s..][1..] == corpus[s + 1..];
    assert EmbedCorpus(corpus[s..], cfg) == ([cur[s]] + corpus[s + 1..], Some(e));
    assert cur[..s] + ([cur[s]] + corpus[s + 1..]) == cur;
  }

  /**
   * `get_and_save_embeddings`, in place: every article's `embedding` is
   * overwritten with the embedding of its truncated summary. An exception
   * from the provider ends the loops, and the articles already handled keep
   * their new embeddings.
   */
  method GetAndSaveEmbeddings(data: array<Section>, cfg: Settings)
    returns (error: Option<Exception>)
    modifies data
    ensures data[..] == EmbedCorpus(old(data[..]), cfg).0
    ensures error == EmbedCorpus(old(data[..]), cfg).1
  {
    ghost var orig := data[..];
    assert orig[0..] == orig;
    PrependNothing(data[..0], EmbedCorpus(orig, cfg));
    for s := 0 to data.Length
      invariant data[s..] == orig[s..]
      invariant EmbedCorpus(orig, cfg)
                == Prepend(data[..s], EmbedCorpus(orig[s..], cfg))
    {
      ghost var examples := orig[s].examples;
      ghost var before := data[..];
      assert examples[0..] == examples;
      PrependNothing(data[s].examples[..0], EmbedExamples(examples, cfg));
      var n := |data[s].examples|;
      for i := 0 to n
        invariant data[..s] == before[..s] && data[s + 1..] == before[s + 1..]
        invariant data[s].rubric == orig[s].rubric && |data[s].examples| == |examples|
        invariant data[s].examples[i..] == examples[i..]
        invariant EmbedExamples(examples, cfg)
                  == Prepend(data[s].examples[..i], EmbedExamples(examples[i..], cfg))
      {
        assert data[s].examples[i] == examples[i];
        var embedding := SummaryEmbedding(data[s].examples[i], cfg);
        if embedding.Raise? {
          EmbedExamplesStops(examples, data[s].examples, i, embedding.exception, cfg);
          assert data[..][s + 1..] == orig[s + 1..];
          assert data[..][s] == orig[s].(examples := data[s].examples);
          assert data[..][..s] == before[..s];
          EmbedCorpusStops(orig, data[..], s, embedding.exception, cfg);
          return Some(embedding.exception);
        }
        EmbedExamplesStep(examples, data[s].examples, i, embedding.value, cfg);
        var article := data[s].examples[i].(embedding := Some(embedding.value));
        data[s] := data[s].(examples := data[s].examples[i := article]);
      }
      assert data[s].examples[..n] == data[s].examples;
      assert data[..][s + 1..] == orig[s + 1..];
      assert data[..][s] == orig[s].(examples := data[s].examples);
      assert data[..][..s] == before[..s];
      EmbedCorpusStep(orig, data[..], s, cfg);
    }
    assert data[..data.Length] == data[..];
    return None;
  }

  /**
   * What the loop may do to one article: leave it as it was, or set its
   * embedding to the provider's vector for its summary.
   */
  predicate ArticleUpdate(a: Article, b: Article, cfg: Settings)
  {
    b == a || (SummaryEmbedding(a, cfg).Ok? && b == a.(embedding := Some(SummaryEmbedding(a, cfg).value)))
  }

  /** Every summary of the list has an embedding. */
  predicate AllSucceed(examples: seq<Article>, cfg: Settings)
  {
    forall i :: 0 <= i < |examples| ==> SummaryEmbedding(examples[i], cfg).Ok?
  }

  /** The inner loop keeps the articles in place and touches nothing but their embeddings. */
  lemma {:induction false} EmbedExamplesKeeps(examples: seq<Article>, cfg: Settings)
    ensures var r := EmbedExamples(examples, cfg);
            |r.0| == |examples| && forall i :: 0 <= i < |examples| ==> ArticleUpdate(examples[i], r.0[i], cfg)
  {
    if |examples| > 0 {
      var tail := examples[1..];
      EmbedExamplesKeeps(tail, cfg);
      var r := EmbedExamples(examples, cfg);
      if SummaryEmbedding(examples[0], cfg).Ok? {
        var rest := EmbedExamples(tail, cfg);
        assert r.0 == [examples[0].(embedding := Some(SummaryEmbedding(examples[0], cfg).value))] + rest.0;
        forall i | 0 < i < |examples|
          ensures ArticleUpdate(examples[i], r.0[i], cfg)
        {
          assert examples[i] == tail[i - 1] && r.0[i] == rest.0[i - 1];
        }
      }
    }
  }

  /** The inner loop runs to the end iff every summary gets an embedding. */
  lemma {:induction false} EmbedExamplesFinishes(examples: seq<Article>, cfg: Settings)
    ensures EmbedExamples(examples, cfg).1.None? <==> AllSucceed(examples, cfg)
  {
    if |examples| > 0 {
      var tail := examples[1..];
      EmbedExamplesFinishes(tail, cfg);
      if SummaryEmbedding(examples[0], cfg).Ok? {
        assert EmbedExamples(examples, cfg).1 == EmbedExamples(tail, cfg).1;
        if AllSucceed(tail, cfg) {
          forall i | 0 < i < |examples|
            ensures SummaryEmbedding(examples[i], cfg).Ok?
          {
            assert examples[i] == tail[i - 1];
          }
        }
        if AllSucceed(examples, cfg) {
          forall i | 0 <= i < |tail|
            ensures SummaryEmbedding(tail[i], cfg).Ok?
          {
            assert tail[i] == examples[i + 1];
          }
        }
      }
    }
  }

  /** When the inner loop runs to the end, every article carries its summary's embedding. */
  lemma {:induction false} EmbedExamplesComplete(examples: seq<Article>, cfg: Settings)
    requires EmbedExamples(examples, cfg).1.None?
    ensures var r := EmbedExamples(examples, cfg);
            |r.0| == |examples| &&
            forall i :: 0 <= i < |examples| ==>
              SummaryEmbedding(examples[i], cfg).Ok? &&
              r.0[i] == examples[i].(embedding := Some(SummaryEmbedding(examples[i], cfg).value))
  {
    if |examples| > 0 {
      var tail := examples[1..];
      var r := EmbedExamples(examples, cfg);
      assert SummaryEmbedding(examples[0], cfg).Ok?;
      var rest := EmbedExamples(tail, cfg);
      assert r == ([examples[0].(embedding := Some(SummaryEmbedding(examples[0], cfg).value))] + rest.0, rest.1);
      EmbedExamplesComplete(tail, cfg);
      forall i | 0 < i < |examples|
        ensures SummaryEmbedding(examples[i], cfg).Ok? &&
                r.0[i] == examples[i].(embedding := Some(SummaryEmbedding(examples[i], cfg).value))
      {
        assert examples[i] == tail[i - 1] && r.0[i] == rest.0[i - 1];
      }
    }
  }

  /** An exception that stops the inner loop is the one some article's embedding raised. */
  lemma {:induction false} EmbedExamplesCause(examples: seq<Article>, cfg: Settings)
    requires EmbedExamples(examples, cfg).1.Some?
    ensures exists i :: 0 <= i < |examples| && SummaryEmbedding(examples[i], cfg) == Raise(EmbedExamples(examples, cfg).1.value)
  {
    var e := EmbedExamples(examples, cfg).1.value;
    if SummaryEmbedding(examples[0], cfg).Raise? {
      assert SummaryEmbedding(examples[0], cfg) == Raise(e);
    } else {
      var tail := examples[1..];
      assert EmbedExamples(tail, cfg).1 == Some(e);
      EmbedExamplesCause(tail, cfg);
      var k :| 0 <= k < |tail| && SummaryEmbedding(tail[k], cfg) == Raise(e);
      assert examples[k + 1] == tail[k];
    }
  }

  /**
   * The loops keep the sections, their rubrics and their articles in place,
   * touching nothing but embeddings.
   */
  lemma {:induction false} EmbedCorpusKeeps(corpus: Corpus, cfg: Settings)
    ensures var r := EmbedCorpus(corpus, cfg);
            |r.0| == |corpus| &&
            forall s :: 0 <= s < |corpus| ==>
              r.0[s].rubric == corpus[s].rubric && |r.0[s].examples| == |corpus[s].examples| &&
              forall i :: 0 <= i < |corpus[s].examples| ==> ArticleUpdate(corpus[s].examples[i], r.0[s].examples[i], cfg)
  {
    if |corpus| > 0 {
      var tail := corpus[1..];
      EmbedCorpusKeeps(tail, cfg);
      EmbedExamplesKeeps(corpus[0].examples, cfg);
      var r0 := EmbedExamples(corpus[0].examples, cfg);
      var first := corpus[0].(examples := r0.0);
      var r := EmbedCorpus(corpus, cfg);
      if r0.1.Some? {
        assert r.0 == [first] + tail;
        forall s | 0 < s < |corpus|
          ensures r.0[s] == corpus[s]
        {
          assert r.0[s] == tail[s - 1];
        }
      } else {
        var rest := EmbedCorpus(tail, cfg);
        assert r.0 == [first] + rest.0;
        forall s | 0 < s < |corpus|
          ensures r.0[s].rubric == corpus[s].rubric && |r.0[s].examples| == |corpus[s].examples| &&
                  forall i :: 0 <= i < |corpus[s].examples| ==> ArticleUpdate(corpus[s].examples[i], r.0[s].examples[i], cfg)
        {
          assert corpus[s] == tail[s - 1] && r.0[s] == rest.0[s - 1];
        }
      }
    }
  }

  /** Every summary of every section gets an embedding. */
  predicate AllSectionsSucceed(corpus: Corpus, cfg: Settings)
  {
    forall s :: 0 <= s < |corpus| ==> AllSucceed(corpus[s].examples, cfg)
  }

  /** The loops run to the end iff every summary of the corpus gets an embedding. */
  lemma {:induction false} EmbedCorpusFinishes(corpus: Corpus, cfg: Settings)
    ensures EmbedCorpus(corpus, cfg).1.None? <==> AllSectionsSucceed(corpus, cfg)
  {
    if |corpus| > 0 {
      var tail := corpus[1..];
      EmbedCorpusFinishes(tail, cfg);
      EmbedExamplesFinishes(corpus[0].examples, cfg);
      if EmbedExamples(corpus[0].examples, cfg).1.None? {
        assert EmbedCorpus(corpus, cfg).1 == EmbedCorpus(tail, cfg).1;
        if AllSectionsSucceed(tail, cfg) {
          forall s | 0 < s < |corpus|
            ensures AllSucceed(corpus[s].examples, cfg)
          {
            assert corpus[s] == tail[s - 1];
          }
        }
        if AllSectionsSucceed(corpus, cfg) {
          forall s | 0 <= s < |tail|
            ensures AllSucceed(tail[s].examples, cfg)
          {
            assert tail[s] == corpus[s + 1];
          }
        }
      }
    }
  }

  /**
   * When the loops run to the end, every article carries its summary's
   * embedding, so the corpus is fully embedded.
   */
  lemma {:induction false} EmbedCorpusComplete(corpus: Corpus, cfg: Settings)
    requires EmbedCorpus(corpus, cfg).1.None?
    ensures var r := EmbedCorpus(corpus, cfg);
            |r.0| == |corpus| && Embedded(r.0) &&
            forall s :: 0 <= s < |corpus| ==>
              r.0[s] == corpus[s].(examples := EmbedExamples(corpus[s].examples, cfg).0) &&
              EmbedExamples(corpus[s].examples, cfg).1.None?
  {
    if |corpus| > 0 {
      var tail := corpus[1..];
      var r0 := EmbedExamples(corpus[0].examples, cfg);
      assert r0.1.None?;
      var rest := EmbedCorpus(tail, cfg);
      var r := EmbedCorpus(corpus, cfg);
      assert r == ([corpus[0].(examples := r0.0)] + rest.0, rest.1);
      EmbedCorpusComplete(tail, cfg);
      EmbedExamplesComplete(corpus[0].examples, cfg);
      forall s | 0 < s < |corpus|
        ensures r.0[s] == corpus[s].(examples := EmbedExamples(corpus[s].examples, cfg).0) &&
                EmbedExamples(corpus[s].examples, cfg).1.None?
      {
        assert corpus[s] == tail[s - 1] && r.0[s] == rest.0[s - 1];
      }
      forall s | 0 <= s < |r.0|
        ensures HasEmbedding(r.0[s].examples)
      {
        if s > 0 {
          assert r.0[s] == rest.0[s - 1];
        } else {
          forall a | a in r0.0
            ensures a.embedding.Some?
          {
            var i :| 0 <= i < |r0.0| && r0.0[i] == a;
          }
        }
      }
    }
  }

  /** An exception that stops the loops is the one some article's embedding raised. */
  lemma {:induction false} EmbedCorpusCause(corpus: Corpus, cfg: Settings)
    requires EmbedCorpus(corpus, cfg).1.Some?
    ensures exists s, i :: 0 <= s < |corpus| && 0 <= i < |corpus[s].examples| &&
                           SummaryEmbedding(corpus[s].examples[i], cfg) == Raise(EmbedCorpus(corpus, cfg).1.value)
  {
    var e := EmbedCorpus(corpus, cfg).1.value;
    var r0 := EmbedExamples(corpus[0].examples, cfg);
    if r0.1.Some? {
      assert r0.1 == Some(e);
      EmbedExamplesCause(corpus[0].examples, cfg);
      var i :| 0 <= i < |corpus[0].examples| && SummaryEmbedding(corpus[0].examples[i], cfg) == Raise(e);
    } else {
      var tail := corpus[1..];
      assert EmbedCorpus(tail, cfg).1 == Some(e);
      EmbedCorpusCause(tail, cfg);
      var s, i :| 0 <= s < |tail| && 0 <= i < |tail[s].examples| && SummaryEmbedding(tail[s].examples[i], cfg) == Raise(e);
      assert corpus[s + 1] == tail[s];
    }
  }
}
