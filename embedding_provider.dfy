/** The embedding provider (`openai.embeddings.create`) at its interface. */
module EmbeddingProvider {
  import opened Wrappers
  import opened VectorMath

  /**
   * What is passed as `input=`: a text, or, as `get_and_save_embeddings`
   * does, the (text, token count) pair that `encode_with_truncation` returns.
   */
  datatype Input = Text(text: string) | TextAndCount(text: string, count: nat)

  datatype Request = Request(input: Input, model: string)

  /**
   * What a call does: raise, return a falsy value (None), or return a
   * response whose `data` lists embeddings.
   */
  datatype Response = Raised(exception: Exception) | Falsy | Returned(data: seq<Vector>)

  /** `openai.embeddings.create`, as a function of the request. */
  type Provider = Request -> Response

  const INDEX_OUT_OF_RANGE := Exception(IndexError, "list index out of range")
  const NO_ATTRIBUTE_DATA := Exception(AttributeError, "'NoneType' object has no attribute 'data'")

  /** `response.data[0].embedding`, raising as Python does when there is none. */
  function FirstEmbedding(r: Response): (v: Result<Vector>)
    ensures v.Ok? <==> r.Returned? && |r.data| > 0
    ensures v.Ok? ==> v.value == r.data[0]
    ensures r.Raised? ==> v == Raise(r.exception)
    ensures r.Falsy? ==> v == Raise(NO_ATTRIBUTE_DATA)
  {
    match r
    case Raised(e) => Raise(e)
    case Falsy => Raise(NO_ATTRIBUTE_DATA)
    case Returned(data) => if |data| == 0 then Raise(INDEX_OUT_OF_RANGE) else Ok(data[0])
  }
}
