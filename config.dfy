/** The constants of config.py that the core reads. */
module Config {
  const EMBEDDING_MODEL: string := "text-embedding-3-large"
  const TOKEN_ENCODING: string := "cl100k_base"
  const MAX_TOKENS: int := 8000
}
