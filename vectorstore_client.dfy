/**
 * The draft `VectorStore` of vectorstore_client.py. It shares the averaging,
 * truncation and scoring definitions with vectorstore.py but differs in its
 * error contract: every exception of an embedding call is caught while
 * averaging, and a falsy provider response gives no embedding instead of an
 * exception.
 */
module VectorStoreClient {
  import opened Wrappers
  import opened VectorMath
  import opened Dicts
  import opened Config
  import opened Tokenization
  import opened EmbeddingProvider
  import opened Similarity
  import opened Corpus
  import opened AverageEmbeddings
  import opened Classifier
  import VectorStore

  /** The default `max_tokens` of `get_embedding`. */
  const DEFAULT_MAX_TOKENS: int := 8000

  /**
   * `get_embedding` of the draft: None when the provider's response is
   * falsy, otherwise the first embedding of the response, where an exception
   * of the call or an empty `data` propagates.
   */
  function GetEmbedding(text: string, maxTokens: int, getEncoding: string -> Encoding, provider: Provider): (r: Result<Option<Vector>>)
    ensures var resp := provider(VectorStore.EmbeddingRequest(text, EMBEDDING_MODEL, maxTokens, getEncoding));
            (r == Ok(None) <==> resp.Falsy?) &&
            (r.Ok? && r.value.Some? <==> resp.Returned? && |resp.data| > 0) &&
            (r.Ok? && r.value.Some? ==> r.value.value == resp.data[0]) &&
            (resp.Raised? ==> r == Raise(resp.exception))
  {
    var response := provider(VectorStore.EmbeddingRequest(text, EMBEDDING_MODEL, maxTokens, getEncoding));
    if response.Falsy? then Ok(None)
    else match FirstEmbedding(response)
      case Raise(e) => Raise(e)
      case Ok(v) => Ok(Some(v))
  }

  /**
   * Both stores send the same truncated text; they differ only in what a
   * falsy response does: the draft answers None, vectorstore.py raises.
   */
  lemma GetEmbeddingVariants(text: string, maxTokens: int, getEncoding: string -> Encoding, provider: Provider)
    ensures var resp := provider(VectorStore.EmbeddingRequest(text, EMBEDDING_MODEL, maxTokens, getEncoding));
            var store := VectorStore.GetEmbedding(text, EMBEDDING_MODEL, maxTokens, getEncoding, provider);
            var draft := GetEmbedding(text, maxTokens, getEncoding, provider);
            if resp.Falsy? then draft == Ok(None) && store == Raise(NO_ATTRIBUTE_DATA)
            else draft == (if store.Ok? then Ok(Some(store.value)) else Raise(store.exception))
  {
  }

  /** `get_average_embeddings` of the draft: every exception is caught. */
  method GetAverageEmbeddings(model: string, rubricsData: Corpus, provider: Provider)
    returns (r: Result<Dict<string, Vector>>)
    ensures r == AverageEmbeddingsSpec(rubricsData, model, provider, CatchAll)
  {
    r := AverageEmbeddings.GetAverageEmbeddings(rubricsData, model, provider, CatchAll);
  }

  /**
   * What `find_most_similar_category` of the draft returns: `(None, None)`
   * when the embedding is None, else the selection over the dictionary.
   */
  function FindMostSimilarSpec(text: string, embeddingsDict: Dict<string, Vector>,
                               getEncoding: string -> Encoding, provider: Provider, sqrt: real -> real): Result<Match>
    requires IsSqrt(sqrt)
  {
    match GetEmbedding(text, DEFAULT_MAX_TOKENS, getEncoding, provider)
    case Raise(ex) => Raise(ex)
    case Ok(None) => Ok(NoMatch)
    case Ok(Some(v)) => ClassifySpec(v, embeddingsDict, sqrt)
  }

  method FindMostSimilarCategory(text: string, embeddingsDict: Dict<string, Vector>,
                                 getEncoding: string -> Encoding, provider: Provider, sqrt: real -> real)
    returns (r: Result<Match>)
    requires IsSqrt(sqrt)
    ensures r == FindMostSimilarSpec(text, embeddingsDict, getEncoding, provider, sqrt)
  {
    var articleEmbedding := GetEmbedding(text, DEFAULT_MAX_TOKENS, getEncoding, provider);
    if articleEmbedding.Raise? {
      return Raise(articleEmbedding.exception);
    }
    if articleEmbedding.value.None? {
      return Ok(NoMatch);
    }
    r := Classify(articleEmbedding.value.value, embeddingsDict, sqrt);
  }

  /** `(None, None)` comes back exactly when the provider's response is falsy. */
  lemma NoMatchIffFalsy(text: string, embeddingsDict: Dict<string, Vector>,
                        getEncoding: string -> Encoding, provider: Provider, sqrt: real -> real)
    requires IsSqrt(sqrt)
    ensures FindMostSimilarSpec(text, embeddingsDict, getEncoding, provider, sqrt) == Ok(NoMatch) <==> provider(VectorStore.EmbeddingRequest(text, EMBEDDING_MODEL, DEFAULT_MAX_TOKENS, getEncoding)).Falsy?
  {
    var e := GetEmbedding(text, DEFAULT_MAX_TOKENS, getEncoding, provider);
    if e.Ok? && e.value.Some? {
      assert ClassifySpec(e.value.value, embeddingsDict, sqrt) != Ok(NoMatch);
    }
  }
}
