/** Token-level truncation before embedding (`encode_with_truncation` and its inline copy). */
module Tokenization {

  type Token = int

  /**
   * A tiktoken encoding: its name and its encode and decode functions, which
   * belong to the tokenizer library and are left uninterpreted.
   */
  datatype Encoding = Encoding(name: string, encode: string -> seq<Token>, decode: seq<Token> -> string)

  /** Python's `s[:n]`, where a negative n counts from the end. */
  function SlicePrefix<T>(s: seq<T>, n: int): (r: seq<T>)
    ensures r <= s
    ensures 0 <= n <= |s| ==> |r| == n
    ensures n < 0 ==> |r| == if |s| + n >= 0 then |s| + n else 0
  {
    if n >= |s| then s
    else if n >= 0 then s[..n]
    else if |s| + n >= 0 then s[..|s| + n]
    else []
  }

  /** `if len(tokens) > max_tokens: tokens = tokens[:max_tokens]` */
  function Truncate(tokens: seq<Token>, maxTokens: int): (r: seq<Token>)
    ensures r <= tokens
    ensures 0 <= maxTokens ==> |r| <= maxTokens
    ensures |tokens| <= maxTokens ==> r == tokens
    ensures 0 <= maxTokens < |tokens| ==> |r| == maxTokens
  {
    if |tokens| > maxTokens then SlicePrefix(tokens, maxTokens) else tokens
  }

  /** Truncating a second time to the same limit changes nothing. */
  lemma TruncateIdempotent(tokens: seq<Token>, maxTokens: int)
    requires 0 <= maxTokens
    ensures Truncate(Truncate(tokens, maxTokens), maxTokens) == Truncate(tokens, maxTokens)
  {
  }

  /**
   * A negative limit is passed on to the slice, which then drops tokens from
   * the end; repeating it drops more, so the idempotence above needs a
   * non-negative limit.
   */
  lemma NegativeLimitDropsFromEnd(tokens: seq<Token>, maxTokens: int)
    requires maxTokens < 0 && |tokens| + maxTokens > 0
    ensures Truncate(tokens, maxTokens) == tokens[..|tokens| + maxTokens]
    ensures |Truncate(Truncate(tokens, maxTokens), maxTokens)| < |Truncate(tokens, maxTokens)|
  {
  }

  /**
   * `encode_with_truncation`: the decoded text of the kept tokens and how
   * many tokens were kept.
   */
  function EncodeWithTruncation(text: string, maxTokens: int, enc: Encoding): (r: (string, nat))
    ensures 0 <= maxTokens ==> r.1 <= maxTokens
    ensures r.1 <= |enc.encode(text)|
    ensures r.0 == enc.decode(enc.encode(text)[..r.1])
    ensures |enc.encode(text)| <= maxTokens ==> r.1 == |enc.encode(text)|
  {
    var tokens := Truncate(enc.encode(text), maxTokens);
    assert tokens == enc.encode(text)[..|tokens|];
    (enc.decode(tokens), |tokens|)
  }

  /** A text within the limit comes back unchanged when the tokenizer round-trips it. */
  lemma ShortTextUnchanged(text: string, maxTokens: int, enc: Encoding)
    requires |enc.encode(text)| <= maxTokens
    requires enc.decode(enc.encode(text)) == text
    ensures EncodeWithTruncation(text, maxTokens, enc) == (text, |enc.encode(text)|)
  {
    assert enc.encode(text)[..|enc.encode(text)|] == enc.encode(text);
  }

  /**
   * Truncating an already truncated text changes nothing, provided the
   * tokenizer re-encodes the decoded prefix to the same tokens.
   */
  lemma EncodeWithTruncationIdempotent(text: string, maxTokens: int, enc: Encoding)
    requires 0 <= maxTokens
    requires var r := EncodeWithTruncation(text, maxTokens, enc);
             enc.encode(r.0) == enc.encode(text)[..r.1]
    ensures var r := EncodeWithTruncation(text, maxTokens, enc);
            EncodeWithTruncation(r.0, maxTokens, enc) == r
  {
    var r := EncodeWithTruncation(text, maxTokens, enc);
    var p := enc.encode(r.0);
    assert p[..|p|] == p;
  }
}
