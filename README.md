# cpeq_infolettre_automatique — verified model of the classifier and the scrape aggregation

This Dafny project models the two sequential cores of the `cpeq_infolettre_automatique`
newsletter tool and proves properties of them.

**1. The embedding-centroid category classifier.** This is `vectorstore.py` and its draft
`vectorstore_client.py`. A corpus is a sequence of rubric sections. Each section holds example
articles (title, summary, optional embedding vector). The model covers these steps:

- the global mean embedding (`Centroids.GlobalMean`);
- one centroid per rubric, the mean of `embedding - globalMean` over the examples that survive
  the optional (rubric, title) exclusion (`Centroids.GetCategoryEmbeddings`);
- cosine similarity (`Similarity.CosineSimilarity`);
- the arg-max over the scores with Python `max` semantics (`Classifier.Classify`);
- token truncation before embedding (`Tokenization`);
- per-rubric averages of freshly requested embeddings (`AverageEmbeddings`);
- the in-place attachment of embeddings to a corpus array (`VectorStore.GetAndSaveEmbeddings`).

The two files differ in their error contracts, and each has its own module and lemmas:

- `vectorstore.py` catches only `JSONDecodeError` around an embedding call. The draft catches
  every exception. The policy is a parameter, `AverageEmbeddings.CatchPolicy`.
- In `vectorstore.py` the embedding is never `None`. In the draft a falsy provider response
  gives `(None, None)`.

**2. The scrape-result aggregation.** This is `utils.py`, `webscraper_io_client.py` and the
draft `api_client.py`. The model covers these steps:

- newline-delimited JSON text becomes an ordered list of records, or an error dict
  (`Utils.ProcessRawResponse`);
- job ids are collected from job-creation responses;
- the successful per-job downloads are concatenated (`ScrapeJobs`).

The two clients differ as follows:

- `webscraper_io_client.py` lets every failure of a sitemap propagate and stringifies the ids
  (`WebScraperIoClient`);
- `api_client.py` catches every failure, skips that sitemap and keeps the ids as received
  (`ApiClient`).

**How the outside world appears in the model.**

- Python dicts are insertion-ordered association lists (`Dicts.Dict`). A write to an existing
  key keeps that key's position, so "the first key in dict order wins a tie in `max`" can be
  stated.
- Python exceptions are `Wrappers.Result` values, `Raise(Exception(kind, message))`.
- Several outside pieces are function parameters:
  - the embedding provider (`EmbeddingProvider.Provider`, request to response);
  - the tokenizer (`Tokenization.Encoding`, an encode and a decode function);
  - `json.loads` of one line (`Json.Parser`);
  - the HTTP calls (`ScrapeJobs.HttpResult` per request);
  - `str()` of a job id;
  - the square root inside `np.linalg.norm` (`sqrt`, required to be exact by
    `Similarity.IsSqrt`).
- Vectors are `seq<real>`.
- `Config` holds the constants of `config.py`: the embedding model, the token encoding and
  `MAX_TOKENS = 8000`.

**Behaviour worth knowing.** Where a docstring and the code disagree, the model follows the code.

- The docstring of `find_most_similar_category` (`vectorstore.py`, line 204) promises
  `(None, None)` "if not found". In `vectorstore.py` that result never comes back. The embedding
  is never `None`, so the `None` branch is dead. An empty centroid mapping makes `max` raise
  `ValueError` (`Classifier.ClassifyEmpty`), and every successful classification is a
  `Best` match (`Classifier.ClassifySpec`).
- The docstring of `cosine_similarity` (`vectorstore.py`, line 93) promises a score between -1
  and 1. That holds for non-zero vectors of equal length (`Similarity.CosineBounds`). A zero
  vector gives a NaN score, with no fallback value (`Similarity.CosineZeroVector`). Python `max`
  never prefers a later key over an earlier NaN (`Similarity.ArgMaxStuckOnNaN`).
- The docstring of `process_raw_response` (`utils.py`, line 13) speaks of "a list with an error
  message". On a decode error the code returns a dict, not a list
  (`Utils.ProcessRawResponseDecodeError`).
- In `vectorstore.py` a failed embedding request during classification propagates. It is not
  turned into "no match" (`VectorStore.FindMostSimilarCategory`).
- In `vectorstore.py` only a `JSONDecodeError` from an embedding call is skipped during
  averaging. Any other failure aborts the whole run (`AverageEmbeddings.JsonPolicyAborts`).
- Rubric names are not assumed unique. When a name repeats, the later centroid overwrites the
  earlier one in the earlier one's position (`Centroids.CategoryValue`).
- An empty corpus makes the global mean raise `IndexError`, from `embeddings[0]` on an empty
  list (`Centroids.GlobalMean`).

## Model

| member | source | states |
|---|---|---|
| `Dicts.Get` | src/cpeq_infolettre_automatique/vectorstore.py:217 | a lookup finds a value exactly when the key is present |
| `Dicts.Put` | src/cpeq_infolettre_automatique/vectorstore.py:81 | assigning an existing key keeps the key order; assigning a new key appends it at the end |
| `Dicts.PutGet` | src/cpeq_infolettre_automatique/vectorstore.py:81 | after `d[k] = v`, looking up `k` gives `v` |
| `Dicts.PutGetOther` | src/cpeq_infolettre_automatique/vectorstore.py:81 | `d[k] = v` leaves the value of every other key unchanged |
| `Dicts.PutUniqueKeys` | src/cpeq_infolettre_automatique/vectorstore.py:81 | assignment never creates a duplicate key |
| `Dicts.Build` | src/cpeq_infolettre_automatique/vectorstore.py:73-82 | repeated `d[k] = v` in loop order, skipping steps that write nothing; its meaning is given by `Dicts.BuildGet` (each key maps to its last written value), `Dicts.BuildUniqueKeys` and `Dicts.BuildDistinctWrites` |
| `Dicts.BuildGet` | src/cpeq_infolettre_automatique/vectorstore.py:73-82 | a dict filled by a sequence of conditional writes maps each key to the last value written for it |
| `Dicts.LastValueSome` | src/cpeq_infolettre_automatique/vectorstore.py:80-81 | a key ends up in the dict iff some write used it |
| `Dicts.LastValueIsLast` | src/cpeq_infolettre_automatique/vectorstore.py:80-81 | the stored value comes from a write with no later write to the same key |
| `Dicts.BuildUniqueKeys` | src/cpeq_infolettre_automatique/vectorstore.py:73-82 | a dict filled by writes has no key twice |
| `Dicts.BuildDistinctWrites` | src/cpeq_infolettre_automatique/vectorstore.py:73-82 | when no key is written twice, the dict is exactly the writes, in order |
| `Dicts.WrittenAllSome` | src/cpeq_infolettre_automatique/vectorstore.py:80-81 | when every step writes, the writes are one entry per step, in order |
| `Json.StringObject` | src/cpeq_infolettre_automatique/webscraper_io_client.py:132 | a dict literal of strings is an object with those members, in order |
| `Json.GetOr` | src/cpeq_infolettre_automatique/webscraper_io_client.py:90 | `.get(key, default)` succeeds iff applied to an object; it gives the key's value when present and the default otherwise |
| `Json.Truthy` | src/cpeq_infolettre_automatique/webscraper_io_client.py:91 | Python `bool()` on a decoded value: None, False, zero and empty strings, lists and dicts are falsy; `ScrapeJobs.JobIdStep` keeps an id only when it is truthy, and `ScrapeJobs.NoIdNoJob` shows a falsy id contributes nothing |
| `Json.IsList` | src/cpeq_infolettre_automatique/webscraper_io_client.py:168 | `isinstance(data, list)`; `ScrapeJobs.CombinedConcat`, `ScrapeJobs.CombinedLength` and `ScrapeJobs.CombinedMembers` show that exactly the list results are concatenated |
| `Tokenization.SlicePrefix` | src/cpeq_infolettre_automatique/vectorstore.py:156 | Python `tokens[:n]`: a prefix; of length `n` when `0 <= n <= len`; a negative `n` drops `-n` tokens from the end |
| `Tokenization.Truncate` | src/cpeq_infolettre_automatique/vectorstore.py:155-156 | the kept tokens are a prefix of the encoding, at most `max_tokens` of them; a short enough encoding is kept whole; a longer one is cut to exactly `max_tokens` |
| `Tokenization.TruncateIdempotent` | src/cpeq_infolettre_automatique/vectorstore.py:155-156 | for a non-negative limit, truncating twice equals truncating once |
| `Tokenization.NegativeLimitDropsFromEnd` | src/cpeq_infolettre_automatique/vectorstore.py:155-156 | a negative limit drops tokens from the end, so truncating twice then differs from truncating once |
| `Tokenization.EncodeWithTruncation` | src/cpeq_infolettre_automatique/vectorstore.py:153-157 | returns the decoding of a prefix of the encoding and that prefix's length, at most `max_tokens` and equal to the full count when within the limit |
| `Tokenization.ShortTextUnchanged` | src/cpeq_infolettre_automatique/vectorstore.py:155-157 | text within the limit whose encoding decodes back to itself is returned unchanged, with its full token count |
| `Tokenization.EncodeWithTruncationIdempotent` | src/cpeq_infolettre_automatique/vectorstore.py:153-157 | when decoding and re-encoding the kept tokens gives them back, a second truncation returns the same text and count |
| `EmbeddingProvider.FirstEmbedding` | src/cpeq_infolettre_automatique/vectorstore.py:175 | `response.data[0].embedding` succeeds iff a response with at least one result came back, and then is the first result; a provider exception propagates, and a falsy response raises `AttributeError` |
| `Corpus.SectionEmbeddings` | src/cpeq_infolettre_automatique/vectorstore.py:57 | one embedding per example of the section, in order |
| `Corpus.AllEmbeddings` | src/cpeq_infolettre_automatique/vectorstore.py:56-58 | the comprehension over every section and example has one vector per example of the corpus |
| `Corpus.AllEmbeddingsContain` | src/cpeq_infolettre_automatique/vectorstore.py:56-58 | every example's embedding appears in the list |
| `Corpus.SectionEmbeddingsFit` | src/cpeq_infolettre_automatique/vectorstore.py:57 | when every example carries a vector of dimension `d`, the section's list has only vectors of dimension `d` |
| `Corpus.AllEmbeddingsFit` | src/cpeq_infolettre_automatique/vectorstore.py:56-58 | when every example of the corpus carries a vector of dimension `d`, so does the whole list |
| `VectorMath.Sub` | src/cpeq_infolettre_automatique/vectorstore.py:76 | element-wise subtraction keeps the dimension |
| `VectorMath.Mean` | src/cpeq_infolettre_automatique/vectorstore.py:59 | the component-wise mean keeps the dimension |
| `VectorMath.NpMean` | src/cpeq_infolettre_automatique/vectorstore.py:59 | `np.mean(vs, axis=0)` succeeds iff every vector has the first one's length, with that length; a ragged list raises `ValueError` |
| `VectorMath.NpMeanOfFit` | src/cpeq_infolettre_automatique/vectorstore.py:59 | on vectors of one dimension, `np.mean` is the component-wise sum divided by the count |
| `VectorMath.MeanTimesCount` | src/cpeq_infolettre_automatique/vectorstore.py:59 | each component of the mean times the count is the component sum |
| `VectorMath.ComponentSumAppend` | src/cpeq_infolettre_automatique/vectorstore.py:56-59 | component sums add over concatenated lists |
| `VectorMath.Centered` | src/cpeq_infolettre_automatique/vectorstore.py:76 | subtracting the global mean from each vector keeps the count and the dimension |
| `VectorMath.ComponentSumCentered` | src/cpeq_infolettre_automatique/vectorstore.py:76 | the component sum of the centred vectors is the plain sum minus count times the mean's component |
| `VectorMath.Dot` | src/cpeq_infolettre_automatique/vectorstore.py:95 | `np.dot` over equal-length vectors; `Similarity.DotSymmetric` proves it symmetric and `Similarity.CauchySchwarz` bounds its square by the product of the squared norms |
| `VectorMath.NormSq` | src/cpeq_infolettre_automatique/vectorstore.py:95 | the square of `np.linalg.norm`; `Similarity.NormSqNonNegative` proves it non-negative and `Similarity.SqrtOfSquare` shows the norm, its square root, is non-negative and zero only when it is zero |
| `Similarity.DotSymmetric` | src/cpeq_infolettre_automatique/vectorstore.py:95 | `np.dot(a, b) == np.dot(b, a)` |
| `Similarity.ResidualNonNegative` | src/cpeq_infolettre_automatique/vectorstore.py:95 | the sum of squares of `p*a - q*b` is non-negative (first step of Cauchy–Schwarz) |
| `Similarity.ResidualExpansion` | src/cpeq_infolettre_automatique/vectorstore.py:95 | that sum of squares expands to `p²·|a|² − 2pq·(a·b) + q²·|b|²` |
| `Similarity.NormSqNonNegative` | src/cpeq_infolettre_automatique/vectorstore.py:95 | a squared norm is non-negative |
| `Similarity.CauchySchwarz` | src/cpeq_infolettre_automatique/vectorstore.py:95 | `(a·b)² <= |a|²·|b|²` for vectors of equal length |
| `Similarity.SqrtOfSquare` | src/cpeq_infolettre_automatique/vectorstore.py:95 | the norm is a non-negative root of the squared norm, positive exactly for a non-zero vector |
| `Similarity.CosineSymmetric` | src/cpeq_infolettre_automatique/vectorstore_client.py:146 | cosine similarity is symmetric in its arguments (the same expression as vectorstore.py:95), including the error and NaN cases |
| `Similarity.CosineSimilarity` | src/cpeq_infolettre_automatique/vectorstore.py:95 | it raises exactly when the vectors differ in length, with the `ValueError` of `np.dot`; the same formula is at vectorstore_client.py line 146; `CosineBounds`, `CosineSymmetric`, `CosineSelf` and `CosineZeroVector` give its values |
| `Similarity.CosineBounds` | src/cpeq_infolettre_automatique/vectorstore.py:93-95 | for non-zero vectors of equal length the score is a number in [-1, 1], as the doc comment claims |
| `Similarity.RatioBounds` | src/cpeq_infolettre_automatique/vectorstore.py:95 | a dot product divided by the two norms lies in [-1, 1] once Cauchy–Schwarz holds |
| `Similarity.CosineSelf` | src/cpeq_infolettre_automatique/vectorstore.py:93-95 | a non-zero vector has similarity exactly 1 with itself |
| `Similarity.CosineZeroVector` | src/cpeq_infolettre_automatique/vectorstore.py:95 | a zero vector on either side gives NaN (0/0), not an error and not a number |
| `Similarity.Greater` | src/cpeq_infolettre_automatique/vectorstore.py:216 | float `>` as `max` uses it, false whenever a side is NaN; `Similarity.ArgMaxIsFirstMaximum` and `Similarity.ArgMaxStuckOnNaN` give its effect on the selection |
| `Similarity.ArgMax` | src/cpeq_infolettre_automatique/vectorstore.py:216 | `max(..., key=...)` selects an index of the non-empty score list |
| `Similarity.ArgMaxIsFirstMaximum` | src/cpeq_infolettre_automatique/vectorstore.py:216 | over numeric scores the selected score is maximal, and every earlier score is strictly smaller (the first maximum wins ties) |
| `Similarity.ArgMaxStuckOnNaN` | src/cpeq_infolettre_automatique/vectorstore.py:216 | when the first score is NaN, `max` keeps the first key, since no comparison with NaN is greater |
| `Centroids.GlobalMean` | src/cpeq_infolettre_automatique/vectorstore.py:56-59 | an example without an embedding raises `KeyError`; an empty corpus raises `IndexError` (the `zeros_like(embeddings[0])` fallback cannot run); otherwise the result is `np.mean` of all example embeddings |
| `Centroids.GlobalMeanFits` | src/cpeq_infolettre_automatique/vectorstore.py:56-59 | a successful global mean means a non-empty corpus whose every example has a vector of the mean's dimension |
| `Centroids.GlobalMeanTimesCount` | src/cpeq_infolettre_automatique/vectorstore.py:56-59 | each component of the global mean times the total example count is the sum of that component over every example of every section |
| `Centroids.Survivors` | src/cpeq_infolettre_automatique/vectorstore.py:75-79 | the filter never adds examples, and keeps all of them when the section's rubric is not the excluded one or no title is given |
| `Centroids.SurvivorsMembers` | src/cpeq_infolettre_automatique/vectorstore.py:78 | an example survives iff it is in the section and not both the rubric and the title match the exclusion |
| `Centroids.CenteredSurvivors` | src/cpeq_infolettre_automatique/vectorstore.py:75-79 | one centred vector per surviving example, of the global mean's dimension |
| `Centroids.SectionCentroid` | src/cpeq_infolettre_automatique/vectorstore.py:75-81 | a section writes exactly when some example survives the exclusion, and then under its own rubric, a vector of the global mean's dimension; `WritesAt`, `CategoryKeys`, `CategoryValue` and `ExcludeOnlyExample` build on it |
| `Centroids.Writes` | src/cpeq_infolettre_automatique/vectorstore.py:74-81 | the loop makes one possible write per section |
| `Centroids.CategoryEmbeddingsSpec` | src/cpeq_infolettre_automatique/vectorstore.py:73-82 | the specification of the returned dict: it never holds a rubric twice; `CategoryKeys`, `CategoryValue`, `CategoryEmbeddingsInOrder` and `CategoryEmbeddingsBalance` give its keys, values, order and balance |
| `Centroids.GetCategoryEmbeddings` | src/cpeq_infolettre_automatique/vectorstore.py:73-82 | the loop builds the dict of section centroids, each write overwriting any earlier write to the same rubric |
| `Centroids.WritesAt` | src/cpeq_infolettre_automatique/vectorstore.py:80-81 | a section writes iff some example survives, and it writes under its own rubric |
| `Centroids.CategoryKeys` | src/cpeq_infolettre_automatique/vectorstore.py:80-81 | a rubric is a key of the result iff some section of that name keeps at least one example |
| `Centroids.CategoryValue` | src/cpeq_infolettre_automatique/vectorstore.py:75-81 | a rubric's value is the centroid of the last section of that name that writes; later sections of the same name do not write |
| `Centroids.ExcludeOnlyExample` | src/cpeq_infolettre_automatique/vectorstore.py:74-81 | excluding the only example of a section leaves that section without a centroid |
| `Centroids.ExcludeKeepsOthers` | src/cpeq_infolettre_automatique/vectorstore.py:78 | an example with a different title survives the exclusion |
| `Centroids.CategoryEmbeddingsInOrder` | src/cpeq_infolettre_automatique/vectorstore.py:73-82 | with distinct rubric names and no exclusion, the result is exactly the list of (rubric, centroid) items of the sections that have examples, in corpus order; empty sections are skipped |
| `Centroids.SectionCentroidWhole` | src/cpeq_infolettre_automatique/vectorstore.py:75-81 | with no exclusion a section writes nothing when it has no examples and otherwise the mean of all its centred examples under its own rubric |
| `Centroids.WrittenNonEmpty` | src/cpeq_infolettre_automatique/vectorstore.py:74-81 | with no exclusion the writes, in order, are the items of the non-empty sections |
| `Centroids.NonEmptyCentroidsFrom` | src/cpeq_infolettre_automatique/vectorstore.py:80-81 | every item of the in-order list is the centroid of some non-empty section, under that section's rubric |
| `Centroids.NonEmptyCentroidsCover` | src/cpeq_infolettre_automatique/vectorstore.py:80-81 | every non-empty section has its centroid, under its rubric, among the items |
| `Centroids.NonEmptyCentroidsKeys` | src/cpeq_infolettre_automatique/vectorstore.py:80-81 | every key of the in-order list is the rubric of some section |
| `Centroids.NonEmptyCentroidsUnique` | src/cpeq_infolettre_automatique/vectorstore.py:80-81 | distinct rubric names give a list without repeated keys |
| `Centroids.NonEmptyCentroidsAll` | src/cpeq_infolettre_automatique/vectorstore.py:74-81 | when no section is empty, the in-order list has one item per section, at the same position |
| `Centroids.CategoryEmbeddingsEverySection` | src/cpeq_infolettre_automatique/vectorstore.py:73-82 | with distinct rubric names, non-empty sections and no exclusion, the result has one entry per section, in corpus order, holding the mean of its centred examples |
| `Centroids.SectionContribution` | src/cpeq_infolettre_automatique/vectorstore.py:81 | example count times centroid equals the sum of the section's centred examples |
| `Centroids.WeightedCentroidSumIsCenteredSum` | src/cpeq_infolettre_automatique/vectorstore.py:75-81 | summing count times centroid over the sections (an empty section adds nothing) is the sum of every centred example |
| `Centroids.CenteredSumIsCenteredTotal` | src/cpeq_infolettre_automatique/vectorstore.py:56-81 | the sum of every centred example is the raw component sum minus total count times the mean's component |
| `Centroids.SectionCenteredSumValue` | src/cpeq_infolettre_automatique/vectorstore.py:76 | one section's centred sum is its raw sum minus its count times the mean's component |
| `Centroids.CentroidsBalance` | src/cpeq_infolettre_automatique/vectorstore.py:56-81 | mean-centring invariant: with the store's own global mean and no exclusion, the sum over sections of (example count × centroid) is zero in every component; empty sections need not be excluded |
| `Centroids.CategoryEmbeddingsBalance` | src/cpeq_infolettre_automatique/vectorstore.py:56-82 | the same invariant read off the returned dict: with distinct rubrics, the dict's entries weighted by their rubric's example count sum to zero in every component |
| `Centroids.DictWeightedSumPrefix` | src/cpeq_infolettre_automatique/vectorstore.py:74-81 | over any prefix of the sections, the count-weighted sum over the in-order items equals the section-level weighted sum |
| `Centroids.DictWeightedSumStep` | src/cpeq_infolettre_automatique/vectorstore.py:80-81 | appending a non-empty section's item adds that section's count times its centroid |
| `Centroids.RubricCountDistinct` | src/cpeq_infolettre_automatique/vectorstore.py:74-76 | with distinct rubrics, the number of examples filed under a section's rubric is that section's size |
| `Centroids.RubricCountAbsent` | src/cpeq_infolettre_automatique/vectorstore.py:74-76 | a rubric no section carries has no examples |
| `Centroids.NpMeanAsTimes` | src/cpeq_infolettre_automatique/vectorstore.py:59 | `np.mean` times the count, as repeated addition, gives the component sum |
| `AverageEmbeddings.Caught` | src/cpeq_infolettre_automatique/vectorstore.py:128 | which exceptions an `except` clause around the embedding call catches: only `JSONDecodeError` in vectorstore.py, every exception in vectorstore_client.py:82; `AverageEmbeddings.PoliciesAgree`, `AverageEmbeddings.JsonPolicyAborts` and `AverageEmbeddings.SuccessesCatchAll` state the consequences |
| `AverageEmbeddings.InputText` | src/cpeq_infolettre_automatique/vectorstore.py:118 | the embedded text is the title, one space, then the summary |
| `AverageEmbeddings.Outcomes` | src/cpeq_infolettre_automatique/vectorstore.py:117-127 | one embedding outcome per article, in order |
| `AverageEmbeddings.Successes` | src/cpeq_infolettre_automatique/vectorstore.py:117-129 | `all_embeddings` after the inner loop, or the first uncaught exception; `AverageEmbeddings.SuccessesOk` (it succeeds iff every failure is caught, and is then the successes in order) and `AverageEmbeddings.SuccessesFirstUncaught` give its meaning |
| `AverageEmbeddings.SectionAverage` | src/cpeq_infolettre_automatique/vectorstore.py:112-136 | what one section writes into `rubric_embeddings`; `AverageEmbeddings.SectionAverageValue` proves it writes nothing iff no example succeeded, and otherwise the mean of the successes under the section's rubric |
| `AverageEmbeddings.AverageWrites` | src/cpeq_infolettre_automatique/vectorstore.py:110-139 | the writes of the outer loop, or the first exception; `AverageEmbeddings.AverageWritesShape` proves one write per section, each that section's `SectionAverage`, and that a raise comes from some section |
| `AverageEmbeddings.AverageEmbeddingsSpec` | src/cpeq_infolettre_automatique/vectorstore.py:110-139 | the specification of the returned dict, built from the per-section writes; `AverageEmbeddingsUnique`, `AverageKeys`, `AverageValue`, `JsonPolicyAborts`, `CatchAllOnlyMeanRaises` and `PoliciesAgree` give its keys, values and failures |
| `AverageEmbeddings.AverageEmbeddingsUnique` | src/cpeq_infolettre_automatique/vectorstore.py:110-139 | a successful result never holds a rubric twice |
| `AverageEmbeddings.GetAverageEmbeddings` | src/cpeq_infolettre_automatique/vectorstore.py:110-139 | the nested loops, shared by both files with the catch policy as a parameter, compute exactly the specified per-rubric averages or the first uncaught exception |
| `AverageEmbeddings.SuccessesRaisePersists` | src/cpeq_infolettre_automatique/vectorstore.py:117-129 | once an uncaught exception occurs in a section, later articles do not change the outcome |
| `AverageEmbeddings.AverageWritesRaisePersists` | src/cpeq_infolettre_automatique/vectorstore.py:112-139 | once a section aborts, later sections do not change the outcome |
| `AverageEmbeddings.OksAppend` | src/cpeq_infolettre_automatique/vectorstore.py:122 | collecting successes distributes over concatenation |
| `AverageEmbeddings.OksMembers` | src/cpeq_infolettre_automatique/vectorstore.py:122 | a vector is collected iff some call returned it |
| `AverageEmbeddings.SuccessesOk` | src/cpeq_infolettre_automatique/vectorstore.py:119-129 | a section's inner loop finishes iff every failure is of a caught kind, and then it has collected exactly the successes, in order |
| `AverageEmbeddings.SuccessesFirstUncaught` | src/cpeq_infolettre_automatique/vectorstore.py:119-129 | when the inner loop aborts, it raises the first uncaught failure, and every earlier failure was caught |
| `AverageEmbeddings.SectionAverageValue` | src/cpeq_infolettre_automatique/vectorstore.py:132-136 | a section with no successes writes nothing; otherwise it writes the mean of its successes under its rubric |
| `AverageEmbeddings.AverageWritesShape` | src/cpeq_infolettre_automatique/vectorstore.py:112-139 | the outer loop finishes iff every section does, with one write per section in order; if it aborts, the exception is that of some section |
| `AverageEmbeddings.AverageKeys` | src/cpeq_infolettre_automatique/vectorstore.py:132-136 | a rubric is a key of the result iff some section of that name had at least one successful embedding |
| `AverageEmbeddings.AverageValue` | src/cpeq_infolettre_automatique/vectorstore.py:132-136 | a rubric's value is the mean of the successes of the last section of that name that had any |
| `AverageEmbeddings.SuccessesCatchAll` | src/cpeq_infolettre_automatique/vectorstore_client.py:75-83 | when every exception is caught, the inner loop always finishes with exactly the successful vectors; later articles are still processed |
| `AverageEmbeddings.CatchAllOnlyMeanRaises` | src/cpeq_infolettre_automatique/vectorstore_client.py:82-90 | in the draft the only way the run can fail is a `ValueError` from `np.mean` over successes of different lengths |
| `AverageEmbeddings.JsonPolicyAborts` | src/cpeq_infolettre_automatique/vectorstore.py:128 | in `vectorstore.py` a failure of any kind other than `JSONDecodeError` aborts the whole run |
| `AverageEmbeddings.SectionAveragesAgree` | src/cpeq_infolettre_automatique/vectorstore.py:112-139 | section-wise agreement of two runs gives agreement of the whole run |
| `AverageEmbeddings.PoliciesAgree` | src/cpeq_infolettre_automatique/vectorstore_client.py:82 | when every failure is a `JSONDecodeError`, the two files compute the same averages (vectorstore.py:128 against vectorstore_client.py:82) |
| `Classifier.ScoreWrites` | src/cpeq_infolettre_automatique/vectorstore.py:210-214 | the writes of the scoring loop, or the first raise; `Classifier.ScoresInOrder` and `Classifier.ScoresDict` give one score per category in dictionary order, `Classifier.ScoreWritesRaisePersists` keeps a raise |
| `Classifier.MaxByScore` | src/cpeq_infolettre_automatique/vectorstore.py:216-217 | `max(similarity_scores, key=similarity_scores.get)` and its score: an empty dict raises `ValueError`, otherwise one of the dict's (category, score) items comes back; `Classifier.ClassifyFirstMaximum` makes it the first maximum |
| `Classifier.Values` | src/cpeq_infolettre_automatique/vectorstore.py:216 | a dict has one value per entry |
| `Classifier.ScoreWritesRaisePersists` | src/cpeq_infolettre_automatique/vectorstore.py:210-214 | once a score computation raises, later categories do not change the outcome |
| `Classifier.ClassifySpec` | src/cpeq_infolettre_automatique/vectorstore.py:210-218 | the specification of the scoring and the `max` selection: a success is always a `Best` match, never `(None, None)`; `ClassifyEmpty`, `ClassifyMisaligned`, `ClassifyFirstMaximum` and `ClassifySelf` give its failures and its choice |
| `Classifier.Classify` | src/cpeq_infolettre_automatique/vectorstore.py:210-218 | the score loop and the `max` selection compute exactly the specified match, or the first exception |
| `Classifier.ScoreList` | src/cpeq_infolettre_automatique/vectorstore.py:210-214 | one score per category |
| `Classifier.ScoresInOrder` | src/cpeq_infolettre_automatique/vectorstore.py:210-214 | aligned vectors never make the score loop raise, and it writes each category's cosine score in dict order |
| `Classifier.ScoresDict` | src/cpeq_infolettre_automatique/vectorstore.py:210-214 | with unique keys, the score dict has the same keys, in the same order, as the centroid dict |
| `Classifier.ClassifyEmpty` | src/cpeq_infolettre_automatique/vectorstore.py:216 | an empty centroid dict makes `max` raise `ValueError` |
| `Classifier.ClassifyMisaligned` | src/cpeq_infolettre_automatique/vectorstore.py:212-214 | when the first centroid of the wrong dimension is reached, `np.dot` raises `ValueError` |
| `Classifier.ClassifyFirstMaximum` | src/cpeq_infolettre_automatique/vectorstore.py:216-218 | with numeric scores, the result is a category whose score is maximal, returned with that score, and every earlier category scores strictly lower |
| `Classifier.ClassifySelf` | src/cpeq_infolettre_automatique/vectorstore.py:210-218 | classifying a centroid's own vector against non-zero centroids returns a score of exactly 1 |
| `VectorStore.EmbeddingRequest` | src/cpeq_infolettre_automatique/vectorstore.py:172-174 | the text sent to the provider decodes a prefix of the encoding of at most `max_tokens` tokens, under the configured model |
| `VectorStore.GetEmbedding` | src/cpeq_infolettre_automatique/vectorstore.py:172-175 | returns the first embedding of a non-empty response; a falsy or empty response raises; a provider exception propagates |
| `VectorStore.ShortTextSentWhole` | src/cpeq_infolettre_automatique/vectorstore.py:172-174 | text within the limit is sent unchanged |
| `VectorStore.GetAverageEmbeddings` | src/cpeq_infolettre_automatique/vectorstore.py:110-139 | the averages with only `JSONDecodeError` caught |
| `VectorStore.FindMostSimilarCategory` | src/cpeq_infolettre_automatique/vectorstore.py:206-218 | an embedding failure propagates; otherwise this is the classification of the embedding; a success is never `(None, None)` |
| `VectorStore.SummaryEmbedding` | src/cpeq_infolettre_automatique/vectorstore.py:187-189 | the embedding requested for one article's truncated summary; `EmbedExamplesStep`, `EmbedExamplesStops`, `EmbedExamplesFinishes` and `EmbedExamplesComplete` say how the loop uses it |
| `VectorStore.EmbedExamplesStep` | src/cpeq_infolettre_automatique/vectorstore.py:186-190 | one successful inner iteration extends the processed prefix by one article with its new embedding |
| `VectorStore.EmbedExamplesStops` | src/cpeq_infolettre_automatique/vectorstore.py:186-190 | a failed inner iteration stops the loop with the array as it stands and that exception |
| `VectorStore.EmbedExamples` | src/cpeq_infolettre_automatique/vectorstore.py:186-190 | the examples of one section after the inner loop and the exception that stopped it; `VectorStore.EmbedExamplesStep`, `VectorStore.EmbedExamplesStops` and `VectorStore.EmbedExamplesKeeps` give its meaning (embedded prefix, untouched rest, stop at the first failure) |
| `VectorStore.EmbedCorpus` | src/cpeq_infolettre_automatique/vectorstore.py:185-190 | the corpus after the outer loop has as many sections as before; `EmbedCorpusStep`, `EmbedCorpusStops`, `EmbedCorpusKeeps` and `GetAndSaveEmbeddings` give its contents |
| `VectorStore.EmbedCorpusStep` | src/cpeq_infolettre_automatique/vectorstore.py:185-190 | a fully processed section extends the processed prefix of the corpus by one |
| `VectorStore.EmbedCorpusStops` | src/cpeq_infolettre_automatique/vectorstore.py:185-190 | a section that fails stops the outer loop with the partly updated corpus |
| `VectorStore.GetAndSaveEmbeddings` | src/cpeq_infolettre_automatique/vectorstore.py:185-190 | the in-place loops leave the array and return the error exactly as the corpus-embedding specification says |
| `VectorStore.EmbedExamplesKeeps` | src/cpeq_infolettre_automatique/vectorstore.py:186-190 | each article keeps its title and summary, and its embedding is either unchanged or the provider's answer for its truncated summary |
| `VectorStore.EmbedExamplesFinishes` | src/cpeq_infolettre_automatique/vectorstore.py:186-190 | a section finishes without error iff every article's request succeeds |
| `VectorStore.EmbedExamplesComplete` | src/cpeq_infolettre_automatique/vectorstore.py:186-190 | a section that finishes has every article's embedding set to its own response |
| `VectorStore.EmbedExamplesCause` | src/cpeq_infolettre_automatique/vectorstore.py:186-190 | a section's error is the failure of one of its article requests |
| `VectorStore.EmbedCorpusKeeps` | src/cpeq_infolettre_automatique/vectorstore.py:185-190 | the corpus keeps its sections, rubrics and article counts; only embeddings change |
| `VectorStore.EmbedCorpusFinishes` | src/cpeq_infolettre_automatique/vectorstore.py:185-190 | the run finishes without error iff every section does |
| `VectorStore.EmbedCorpusComplete` | src/cpeq_infolettre_automatique/vectorstore.py:185-190 | a finished run leaves every example embedded, each section as its own loop left it |
| `VectorStore.EmbedCorpusCause` | src/cpeq_infolettre_automatique/vectorstore.py:185-190 | a run's error is the failure of one article's request |
| `VectorStoreClient.GetEmbedding` | src/cpeq_infolettre_automatique/vectorstore_client.py:105-111 | a falsy response gives `None`; a non-empty response gives its first embedding; the provider's exception propagates |
| `VectorStoreClient.GetEmbeddingVariants` | src/cpeq_infolettre_automatique/vectorstore_client.py:110-111 | the two `get_embedding` variants agree, except that a falsy response is `None` in the draft and an `AttributeError` in vectorstore.py:175 |
| `VectorStoreClient.GetAverageEmbeddings` | src/cpeq_infolettre_automatique/vectorstore_client.py:66-93 | the averages with every exception caught |
| `VectorStoreClient.FindMostSimilarSpec` | src/cpeq_infolettre_automatique/vectorstore_client.py:123-133 | what the draft's `find_most_similar_category` returns; `VectorStoreClient.NoMatchIffFalsy` proves `(None, None)` comes back exactly when the provider's response is falsy, and otherwise it is `Classifier.ClassifySpec` of the embedding |
| `VectorStoreClient.FindMostSimilarCategory` | src/cpeq_infolettre_automatique/vectorstore_client.py:123-133 | the draft's classification: `(None, None)` for a `None` embedding, otherwise the `max` selection over the scores |
| `VectorStoreClient.NoMatchIffFalsy` | src/cpeq_infolettre_automatique/vectorstore_client.py:123-125 | the draft returns `(None, None)` iff the provider's response to the default 8000-token request is falsy |
| `Utils.IsSpace` | src/cpeq_infolettre_automatique/utils.py:17 | `str.isspace()` on one character, the set `strip()` removes; `Utils.StripRemovesSpace` and `Utils.BlankInput` use it |
| `Utils.StripLeft` | src/cpeq_infolettre_automatique/utils.py:17 | stripping never lengthens a string |
| `Utils.StripRight` | src/cpeq_infolettre_automatique/utils.py:17 | stripping never lengthens a string |
| `Utils.StripLeftRemovesSpace` | src/cpeq_infolettre_automatique/utils.py:17 | `lstrip()` removes exactly the leading whitespace |
| `Utils.StripRightRemovesSpace` | src/cpeq_infolettre_automatique/utils.py:17 | `rstrip()` removes exactly the trailing whitespace |
| `Utils.Strip` | src/cpeq_infolettre_automatique/utils.py:17 | `raw_response.strip()` is never longer than its input; `Utils.StripRemovesSpace` proves it is the substring left after removing the leading and trailing whitespace |
| `Utils.StripRemovesSpace` | src/cpeq_infolettre_automatique/utils.py:17 | `strip()` returns a substring with all-whitespace borders around it, and it neither starts nor ends with whitespace |
| `Utils.StripIsSubstring` | src/cpeq_infolettre_automatique/utils.py:17 | `strip()` cuts only whitespace from each end |
| `Utils.StripEnds` | src/cpeq_infolettre_automatique/utils.py:17 | a non-empty stripped string starts and ends with non-whitespace |
| `Utils.StripEmpty` | src/cpeq_infolettre_automatique/utils.py:17 | `strip()` gives the empty string iff the input is all whitespace (this is the `if line.strip()` test) |
| `Utils.StripEmptyAllSpace` | src/cpeq_infolettre_automatique/utils.py:17 | an empty strip means an all-whitespace input |
| `Utils.StripNonEmptyNotSpace` | src/cpeq_infolettre_automatique/utils.py:17 | a non-empty strip means some non-whitespace character |
| `Utils.AddChar` | src/cpeq_infolettre_automatique/utils.py:17 | extending the last piece keeps at least one piece |
| `Utils.Split` | src/cpeq_infolettre_automatique/utils.py:17 | `split("\n")` always yields at least one piece |
| `Utils.AddCharConcat` | src/cpeq_infolettre_automatique/utils.py:17 | extending the last piece touches only the last piece |
| `Utils.JoinAddChar` | src/cpeq_infolettre_automatique/utils.py:17 | extending the last piece extends the joined text by that character |
| `Utils.SplitJoin` | src/cpeq_infolettre_automatique/utils.py:17 | joining the pieces of `split("\n")` with newlines gives back the input |
| `Utils.SplitNoNewline` | src/cpeq_infolettre_automatique/utils.py:17 | no piece contains a newline |
| `Utils.SplitAcross` | src/cpeq_infolettre_automatique/utils.py:17 | splitting `x + "\n" + y` gives the pieces of `x` followed by those of `y` |
| `Utils.SplitOneLine` | src/cpeq_infolettre_automatique/utils.py:17 | a text without a newline is one piece |
| `Utils.NonBlank` | src/cpeq_infolettre_automatique/utils.py:17 | the kept lines are lines of the input that are not all whitespace |
| `Utils.NonBlankConcat` | src/cpeq_infolettre_automatique/utils.py:17 | the filter distributes over concatenation, so order is kept |
| `Utils.KeptLines` | src/cpeq_infolettre_automatique/utils.py:17 | the lines the comprehension parses: no kept line is whitespace-only; `Utils.NonBlankInsert` and `Utils.BlankLineIgnored` show a blank line changes nothing |
| `Utils.ParseAll` | src/cpeq_infolettre_automatique/utils.py:17 | `[json.loads(line) for line in lines]`: on success one record per line; `Utils.ParseAllOk` (it succeeds iff every line parses, the k-th record the k-th line's parse) and `Utils.ParseAllFirstRaise` (a failure is the first failing line's) give its meaning |
| `Utils.ErrorDict` | src/cpeq_infolettre_automatique/utils.py:19 | the error result is an object, never a list |
| `Utils.ParseAllOk` | src/cpeq_infolettre_automatique/utils.py:17 | the comprehension succeeds iff every kept line parses, and then the i-th record is the parse of the i-th kept line |
| `Utils.ParseAllFirstRaise` | src/cpeq_infolettre_automatique/utils.py:17 | a failing comprehension raises the exception of the first line that fails to parse |
| `Utils.ProcessRawResponse` | src/cpeq_infolettre_automatique/utils.py:16-21 | a result that raises never raises `JSONDecodeError`, and a success is the list of records or the error dict; the same function is at api_client.py lines 117-123; `ProcessRawResponseRecords`, `ProcessRawResponseDecodeError`, `BlankInput` and `BlankLineIgnored` give its contents |
| `Utils.ProcessRawResponseRecords` | src/cpeq_infolettre_automatique/utils.py:16-21 | the result is a list iff every non-blank line of the stripped input parses, and then it has one record per such line, in order (api_client.py:117-123 is the same function) |
| `Utils.ProcessRawResponseDecodeError` | src/cpeq_infolettre_automatique/utils.py:18-19 | when the first failing line raises `JSONDecodeError`, the result is the `"Failed to decode JSON"` error dict with that message, never a partial list |
| `Utils.BlankInput` | src/cpeq_infolettre_automatique/utils.py:17 | empty or whitespace-only input gives the empty list |
| `Utils.StripLeftConcat` | src/cpeq_infolettre_automatique/utils.py:17 | `lstrip` of a concatenation skips an all-whitespace head or strips only the head |
| `Utils.StripRightConcat` | src/cpeq_infolettre_automatique/utils.py:17 | `rstrip` of a concatenation skips an all-whitespace tail or strips only the tail |
| `Utils.NonBlankInsert` | src/cpeq_infolettre_automatique/utils.py:17 | an inserted whitespace-only line is not kept |
| `Utils.BlankLineIgnored` | src/cpeq_infolettre_automatique/utils.py:17 | inserting a whitespace-only line between two parts does not change the result |
| `ScrapeJobs.RaiseForStatus` | src/cpeq_infolettre_automatique/webscraper_io_client.py:89 | `raise_for_status()` raises iff the status is not 2xx, with an `HTTPStatusError` carrying that status |
| `ScrapeJobs.ResponseText` | src/cpeq_infolettre_automatique/webscraper_io_client.py:147-149 | the body is available iff a 2xx response arrived; a transport failure propagates |
| `ScrapeJobs.ResponseJson` | src/cpeq_infolettre_automatique/webscraper_io_client.py:89-90 | `raise_for_status()` then `response.json()`: a transport or status failure raises, otherwise the body's parse; `ScrapeJobs.StatusErrorRaises` shows a non-2xx status raises with that status |
| `ScrapeJobs.JobId` | src/cpeq_infolettre_automatique/webscraper_io_client.py:90 | a body that is not an object raises, and a body without `data` gives `None`; `NoIdNoJob` builds on it |
| `ScrapeJobs.JobIdStep` | src/cpeq_infolettre_automatique/webscraper_io_client.py:83-95 | a job-creation response yields an id only when that id is truthy |
| `ScrapeJobs.NoIdNoJob` | src/cpeq_infolettre_automatique/webscraper_io_client.py:90-95 | a 2xx response without a truthy `data.id` contributes nothing |
| `ScrapeJobs.StatusErrorRaises` | src/cpeq_infolettre_automatique/webscraper_io_client.py:89 | a non-2xx job-creation response raises `HTTPStatusError` with its status |
| `ScrapeJobs.AcceptedJobIds` | src/cpeq_infolettre_automatique/api_client.py:62-87 | the ids the draft collects number at most one per sitemap; `AcceptedBounds`, `AcceptedConcat` and `AcceptedSingle` give their truthiness and order |
| `ScrapeJobs.AcceptedBounds` | src/cpeq_infolettre_automatique/api_client.py:62-87 | at most one id per sitemap, and every collected id is truthy |
| `ScrapeJobs.AcceptedConcat` | src/cpeq_infolettre_automatique/api_client.py:71-86 | the ids of a concatenation of sitemap lists are the ids of each part, in sitemap order |
| `ScrapeJobs.AcceptedSingle` | src/cpeq_infolettre_automatique/api_client.py:79-84 | one sitemap contributes its id iff its step succeeds with an id |
| `ScrapeJobs.Stringify` | src/cpeq_infolettre_automatique/webscraper_io_client.py:92 | every id is converted with `str()`, in order, one for one |
| `ScrapeJobs.HttpErrorDict` | src/cpeq_infolettre_automatique/webscraper_io_client.py:125-129 | the HTTP-error result is an object, never a list |
| `ScrapeJobs.GetScrapingJobDetails` | src/cpeq_infolettre_automatique/webscraper_io_client.py:115-132 | an HTTP status error or a request error never escapes; `JobDetailsCases` gives the dict for each case |
| `ScrapeJobs.JobDetailsCases` | src/cpeq_infolettre_automatique/webscraper_io_client.py:115-132 | a status error gives the `"HTTP error"` dict with the status; a request error gives the `"Request error"` dict; any other transport failure and a body decode failure propagate; a good body is returned parsed (api_client.py:92-99 behaves the same) |
| `ScrapeJobs.DownloadScrapingJobData` | src/cpeq_infolettre_automatique/webscraper_io_client.py:146-152 | the result is always a list or a dict, never an exception; `DownloadRecords` says which |
| `ScrapeJobs.DownloadRecords` | src/cpeq_infolettre_automatique/webscraper_io_client.py:146-152 | never raises; the result is a list iff a 2xx response arrived and every kept line parses, with one record per line, in order; otherwise an error dict (`"Failed to process data"`, or `"Failed to decode JSON"`) |
| `ScrapeJobs.Downloads` | src/cpeq_infolettre_automatique/webscraper_io_client.py:167 | one download per job id, in job order |
| `ScrapeJobs.DownloadAndProcessMultipleJobs` | src/cpeq_infolettre_automatique/webscraper_io_client.py:163-179 | the loop returns the concatenation of the list results in job order (api_client.py:128-139 is the same loop) |
| `ScrapeJobs.Combined` | src/cpeq_infolettre_automatique/webscraper_io_client.py:163-179 | when no download is a list, nothing is combined; `CombinedConcat`, `CombinedLength` and `CombinedMembers` give its contents |
| `ScrapeJobs.CombinedConcat` | src/cpeq_infolettre_automatique/webscraper_io_client.py:168-169 | the result for two job lists is the result for the first followed by that for the second |
| `ScrapeJobs.CombinedOne` | src/cpeq_infolettre_automatique/webscraper_io_client.py:168-177 | a list result contributes its records; an error dict contributes nothing |
| `ScrapeJobs.CombinedLength` | src/cpeq_infolettre_automatique/webscraper_io_client.py:168-169 | the combined length is the sum of the lengths of the list results |
| `ScrapeJobs.CombinedMembers` | src/cpeq_infolettre_automatique/api_client.py:133-137 | a record is in the combined data iff it is in some job's list result |
| `WebScraperIoClient.CreatedJobIds` | src/cpeq_infolettre_automatique/webscraper_io_client.py:73-96 | a success holds at most one id per sitemap; `CreatedJobIdsOk`, `CreatedStopsAtFirstFailure` and `StatusErrorPropagates` give when it succeeds and what it holds |
| `WebScraperIoClient.CreateScrapingJobs` | src/cpeq_infolettre_automatique/webscraper_io_client.py:73-96 | the loop computes exactly the specified list of stringified ids, or the first exception |
| `WebScraperIoClient.CreatedRaisePersists` | src/cpeq_infolettre_automatique/webscraper_io_client.py:73-96 | once the sitemaps so far have raised, later sitemaps do not change the outcome |
| `WebScraperIoClient.SitemapIds` | src/cpeq_infolettre_automatique/webscraper_io_client.py:75 | `sitemap["sitemap_id"]` for each sitemap, in order |
| `WebScraperIoClient.LookupsSucceed` | src/cpeq_infolettre_automatique/webscraper_io_client.py:74-96 | when every sitemap has an id, the result is the id-level computation over those ids |
| `WebScraperIoClient.LookupFails` | src/cpeq_infolettre_automatique/webscraper_io_client.py:75 | a sitemap without `sitemap_id` makes the call raise |
| `WebScraperIoClient.CreatedFromIds` | src/cpeq_infolettre_automatique/webscraper_io_client.py:83-95 | the job-creation loop over the sitemap ids; `WebScraperIoClient.CreatedFromIdsOk` proves it succeeds iff no step raises, and then gives the stringified accepted ids in order; `WebScraperIoClient.FromIdsFirstFailure` gives the first failure |
| `WebScraperIoClient.CreatedFromIdsOk` | src/cpeq_infolettre_automatique/webscraper_io_client.py:83-95 | the id-level loop succeeds iff no step raises, and then returns the stringified accepted ids |
| `WebScraperIoClient.NoStepRaisesLast` | src/cpeq_infolettre_automatique/webscraper_io_client.py:83-90 | no step raises on a list iff none raises on its prefix and the last step does not raise |
| `WebScraperIoClient.CreatedJobIdsOk` | src/cpeq_infolettre_automatique/webscraper_io_client.py:73-96 | the call returns a list iff every sitemap has an id and no step raises; the list is the `str` of each truthy id in sitemap order, at most one per sitemap |
| `WebScraperIoClient.FromIdsRaisePersists` | src/cpeq_infolettre_automatique/webscraper_io_client.py:83-95 | once a prefix of the ids raises, the rest do not change the outcome |
| `WebScraperIoClient.FromIdsFirstFailure` | src/cpeq_infolettre_automatique/webscraper_io_client.py:83-95 | the exception of the first raising step is the result |
| `WebScraperIoClient.CreatedStopsAtFirstFailure` | src/cpeq_infolettre_automatique/webscraper_io_client.py:83-90 | the call raises the exception of the first sitemap whose step raises |
| `WebScraperIoClient.StatusErrorPropagates` | src/cpeq_infolettre_automatique/webscraper_io_client.py:89 | an HTTP error status on a sitemap, after no earlier failure, propagates as `HTTPStatusError` with that status; no list is returned |
| `ApiClient.CreateScrapingJobs` | src/cpeq_infolettre_automatique/api_client.py:62-87 | the loop never raises and returns the truthy ids as received (not stringified), in sitemap order |
| `ApiClient.FailingSitemapSkipped` | src/cpeq_infolettre_automatique/api_client.py:85-86 | a sitemap whose request, status check or decoding fails is skipped, and the loop goes on with the next sitemap |
| `ApiClient.FalsyIdSkipped` | src/cpeq_infolettre_automatique/api_client.py:80-84 | a sitemap whose response has no truthy id is skipped |

## Left out

- Floating point: vectors are `seq<real>`, so the rounding of `np.mean`, `np.dot` and the norm is not modelled. NaN appears only where a zero norm makes `0/0`, as the `Similarity.Score` value `NaN`.
- The square root of `np.linalg.norm` is a parameter assumed exact (`Similarity.IsSqrt`), because Dafny's reals have no square root.
- File I/O is not modelled, because only what the code computes is in scope. This covers the following, and the model takes the corpus as a parameter instead:
  - `_load_embedded_data`;
  - `load_json_data`, `save_json_data` and `save_data_to_json`;
  - the `json.dump` that ends `get_and_save_embeddings` (vectorstore.py:191-192).
- Logging and `print` output are not modelled, because they do not affect any result.
- `VectorStore.__init__` calls `self.load_embedded_data` and `self.calculate_global_mean_embedding` (vectorstore.py:29, :31), but the methods are named with a leading underscore (:34, :50), so the constructor would fail. The operations take the corpus and the global mean as parameters instead.
- The HTTP calls and the embedding provider are deterministic functions of the request (`string -> HttpResult`, `Request -> Response`): two identical requests always get the same outcome, where the real services may answer differently each time.
- `Centroids.GetCategoryEmbeddings`: requires only that every example carries a vector of the global mean's dimension, which is weaker than requiring that the mean came from the same corpus. `Centroids.GlobalMeanFits` shows that a computed mean meets this. The attribute exists only after `_calculate_global_mean_embedding` succeeds, so no case the source can reach is excluded.
- The key lookups `section["rubric"]`, `section["examples"]`, `article["title"]` and `article["summary"]` (vectorstore.py:77-78, :81, :113-114, :118, :186-187; vectorstore_client.py:69-70, :74) cannot raise `KeyError` in the model: `Corpus.Section` and `Corpus.Article` are typed records that always carry these fields. The lookups whose absence the model does cover are the optional "embedding" (`Centroids.GlobalMean`) and "sitemap_id" (`WebScraperIoClient.LookupFails`).
- numpy broadcasting is not modelled. A ragged `np.mean` raises one abstract `ValueError`, and so does an `np.dot` on vectors of different lengths.
- Exception messages from httpx, numpy, OpenAI and the JSON decoder are abstract strings. The `details` fields of the error dicts carry that abstract message.
- The HTTP exchanges (URL, headers, query parameters, JSON request body) are not modelled. Each request is reduced to its outcome: a transport failure, or a status and a body.
- `json.loads` and `response.json()` are an abstract per-line parser, so the JSON grammar of RFC 8259 is not modelled. `str()` of a job id is a parameter, because Python's `repr` of JSON values is not modelled.
- The tokenizer (tiktoken) and the embedding provider (OpenAI) are abstract functions.
- `VectorStore.FindMostSimilarCategory`: the `(None, None)` branch of vectorstore.py:207-208 is dead. `get_embedding` there either raises or returns, and a provider that returns a `None` embedding inside a response is not modelled.
- `VectorStore.SummaryEmbedding`: `get_and_save_embeddings` passes the whole `(text, count)` tuple from `encode_with_truncation` as the provider input (vectorstore.py:188-189). The model keeps that tuple as a distinct request form and does not guess how the provider treats it.
- The module-level client globals of `api_client.py` (lines 112-113) are not modelled, because the client is passed in.
- `main.py`, `api.py` (FastAPI endpoints) and `WebscraperIoClientTest` are not part of this model, because they are script and framework wiring.
- The tests that need live credentials are not part of this model. So is the unimplemented `get_scraping_jobs` (webscraper_io_client.py:98-101).
