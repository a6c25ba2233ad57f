/**
 * `get_average_embeddings`, shared by both vector stores: embed every example
 * of every rubric, skip the examples whose embedding call raised an exception
 * the variant catches, and map each rubric with a success to the mean of its
 * successes.
 */
module AverageEmbeddings {
  import opened Wrappers
  import opened VectorMath
  import opened Dicts
  import opened Corpus
  import opened EmbeddingProvider

  /** Which exceptions the variant's `except` clause catches around the embedding call. */
  datatype CatchPolicy = CatchJsonDecodeError | CatchAll

  predicate Caught(policy: CatchPolicy, e: Exception)
  {
    match policy
    case CatchJsonDecodeError => e.kind == JSONDecodeError
    case CatchAll => true
  }

  /** `f"{article["title"]} {article["summary"]}"` */
  function InputText(a: Article): (text: string)
    ensures text == a.title + [' '] + a.summary
  {
    a.title + " " + a.summary
  }

  /** The outcome of `response.data[0].embedding` for one example. */
  function Outcome(a: Article, model: string, provider: Provider): Result<Vector>
  {
    FirstEmbedding(provider(Request(Text(InputText(a)), model)))
  }

  function Outcomes(examples: seq<Article>, model: string, provider: Provider): (os: seq<Result<Vector>>)
    ensures |os| == |examples|
  {
    seq(|examples|, i requires 0 <= i < |examples| => Outcome(examples[i], model, provider))
  }

  /** The successful outcomes, in order. */
  function Oks<T>(rs: seq<Result<T>>): seq<T>
  {
    if rs == [] then []
    else Oks(rs[..|rs| - 1]) + (if rs[|rs| - 1].Ok? then [rs[|rs| - 1].value] else [])
  }

  /**
   * `all_embeddings` after the inner loop: the successes in order, or the
   * first exception the policy does not catch.
   */
  function Successes(outcomes: seq<Result<Vector>>, policy: CatchPolicy): Result<seq<Vector>>
  {
    if outcomes == [] then Ok([])
    else
      var n := |outcomes| - 1;
      match Successes(outcomes[..n], policy)
      case Raise(e) => Raise(e)
      case Ok(vs) =>
        match outcomes[n]
        case Ok(v) => Ok(vs + [v])
        case Raise(e) => if Caught(policy, e) then Ok(vs) else Raise(e)
  }

  /** What one rubric section writes into `rubric_embeddings`, if anything. */
  function SectionAverage(section: Section, model: string, provider: Provider, policy: CatchPolicy): Result<Option<(string, Vector)>>
  {
    match Successes(Outcomes(section.examples, model, provider), policy)
    case Raise(e) => Raise(e)
    case Ok(vs) =>
      if |vs| == 0 then Ok(None)
      else match NpMean(vs)
        case Raise(e) => Raise(e)
        case Ok(m) => Ok(Some((section.rubric, m)))
  }

  function AverageWrites(rubricsData: Corpus, model: string, provider: Provider, policy: CatchPolicy): Result<seq<Option<(string, Vector)>>>
  {
    if rubricsData == [] then Ok([])
    else
      var n := |rubricsData| - 1;
      match AverageWrites(rubricsData[..n], model, provider, policy)
      case Raise(e) => Raise(e)
      case Ok(us) =>
        match SectionAverage(rubricsData[n], model, provider, policy)
        case Raise(e) => Raise(e)
        case Ok(u) => Ok(us + [u])
  }

  /** The result of `get_average_embeddings`. */
  function AverageEmbeddingsSpec(rubricsData: Corpus, model: string, provider: Provider, policy: CatchPolicy): Result<Dict<string, Vector>>
  {
    match AverageWrites(rubricsData, model, provider, policy)
    case Raise(e) => Raise(e)
    case Ok(us) => Ok(Build(us))
  }

  /** A successful result never holds a rubric twice. */
  lemma AverageEmbeddingsUnique(rubricsData: Corpus, model: string, provider: Provider, policy: CatchPolicy)
    ensures var r := AverageEmbeddingsSpec(rubricsData, model, provider, policy);
            r.Ok? ==> UniqueKeys(r.value)
  {
    match AverageWrites(rubricsData, model, provider, policy)
    case Raise(_) =>
    case Ok(us) => BuildUniqueKeys(us);
  }

  /** Once the inner loop has raised, later examples change nothing. */
  lemma {:induction false} SuccessesRaisePersists(outcomes: seq<Result<Vector>>, policy: CatchPolicy, k: nat)
    requires k <= |outcomes| && Successes(outcomes[..k], policy).Raise?
    ensures Successes(outcomes, policy) == Successes(outcomes[..k], policy)
    decreases |outcomes| - k
  {
    if k < |outcomes| {
      var n := |outcomes| - 1;
      assert outcomes[..n][..k] == outcomes[..k];
      SuccessesRaisePersists(outcomes[..n], policy, k);
    } else {
      assert outcomes[..k] == outcomes;
    }
  }

  lemma {:induction false} AverageWritesRaisePersists(rubricsData: Corpus, model: string, provider: Provider, policy: CatchPolicy, k: nat)
    requires k <= |rubricsData| && AverageWrites(rubricsData[..k], model, provider, policy).Raise?
    ensures AverageWrites(rubricsData, model, provider, policy) == AverageWrites(rubricsData[..k], model, provider, policy)
    decreases |rubricsData| - k
  {
    if k < |rubricsData| {
      var n := |rubricsData| - 1;
      assert rubricsData[..n][..k] == rubricsData[..k];
      AverageWritesRaisePersists(rubricsData[..n], model, provider, policy, k);
    } else {
      assert rubricsData[..k] == rubricsData;
    }
  }

  /** `get_average_embeddings` with the given catch policy. */
  method GetAverageEmbeddings(rubricsData: Corpus, model: string, provider: Provider, policy: CatchPolicy)
    returns (r: Result<Dict<string, Vector>>)
    ensures r == AverageEmbeddingsSpec(rubricsData, model, provider, policy)
  {
    var rubricEmbeddings: Dict<string, Vector> := [];
    ghost var us: seq<Option<(string, Vector)>> := [];
    for s := 0 to |rubricsData|
      invariant AverageWrites(rubricsData[..s], model, provider, policy) == Ok(us)
      invariant rubricEmbeddings == Build(us)
    {
      var rubricName := rubricsData[s].rubric;
      var articles := rubricsData[s].examples;
      ghost var outcomes := Outcomes(articles, model, provider);
      assert rubricsData[..s + 1][..s] == rubricsData[..s];
      var allEmbeddings: seq<Vector> := [];
      for i := 0 to |articles|
        invariant Successes(outcomes[..i], policy) == Ok(allEmbeddings)
      {
        var inputText := articles[i].title + " " + articles[i].summary;
        var outcome := FirstEmbedding(provider(Request(Text(inputText), model)));
        assert outcomes[..i + 1][..i] == outcomes[..i];
        match outcome
        case Ok(v) =>
          allEmbeddings := allEmbeddings + [v];
        case Raise(e) =>
          if !Caught(policy, e) {
            SuccessesRaisePersists(outcomes, policy, i + 1);
            AverageWritesRaisePersists(rubricsData, model, provider, policy, s + 1);
            return Raise(e);
          }
      }
      assert outcomes[..|articles|] == outcomes;
      if |allEmbeddings| > 0 {
        var averageEmbedding := NpMean(allEmbeddings);
        if averageEmbedding.Raise? {
          AverageWritesRaisePersists(rubricsData, model, provider, policy, s + 1);
          return Raise(averageEmbedding.exception);
        }
        rubricEmbeddings := Put(rubricEmbeddings, rubricName, averageEmbedding.value);
        us := us + [Some((rubricName, averageEmbedding.value))];
      } else {
        us := us + [None];
      }
    }
    assert rubricsData[..|rubricsData|] == rubricsData;
    return Ok(rubricEmbeddings);
  }

  /** The successes keep their order: they split over a concatenation. */
  lemma {:induction false} OksAppend<T>(a: seq<Result<T>>, b: seq<Result<T>>)
    ensures Oks(a + b) == Oks(a) + Oks(b)
  {
    if b != [] {
      var n := |b| - 1;
      OksAppend(a, b[..n]);
      assert (a + b)[..|a + b| - 1] == a + b[..n];
    } else {
      assert a + b == a;
    }
  }

  /** A vector is a success exactly when some outcome returned it. */
  lemma {:induction false} OksMembers<T>(rs: seq<Result<T>>, v: T)
    ensures v in Oks(rs) <==> Ok(v) in rs
  {
    if rs != [] {
      var n := |rs| - 1;
      OksMembers(rs[..n], v);
      assert rs == rs[..n] + [rs[n]];
    }
  }

  /**
   * The inner loop completes exactly when every failure is caught, and then
   * it has collected every success, in order.
   */
  lemma {:induction false} SuccessesOk(outcomes: seq<Result<Vector>>, policy: CatchPolicy)
    ensures Successes(outcomes, policy).Ok? <==>
            forall i :: 0 <= i < |outcomes| && outcomes[i].Raise? ==> Caught(policy, outcomes[i].exception)
    ensures Successes(outcomes, policy).Ok? ==> Successes(outcomes, policy).value == Oks(outcomes)
  {
    if outcomes != [] {
      var n := |outcomes| - 1;
      SuccessesOk(outcomes[..n], policy);
      assert forall i :: 0 <= i < n ==> outcomes[..n][i] == outcomes[i];
    }
  }

  /** When the inner loop raises, it raises the first failure the policy does not catch. */
  lemma {:induction false} SuccessesFirstUncaught(outcomes: seq<Result<Vector>>, policy: CatchPolicy)
    requires Successes(outcomes, policy).Raise?
    ensures exists i :: 0 <= i < |outcomes| && outcomes[i] == Raise(Successes(outcomes, policy).exception) &&
                        !Caught(policy, outcomes[i].exception) &&
                        forall k :: 0 <= k < i && outcomes[k].Raise? ==> Caught(policy, outcomes[k].exception)
  {
    var n := |outcomes| - 1;
    var e := Successes(outcomes, policy).exception;
    SuccessesOk(outcomes[..n], policy);
    if Successes(outcomes[..n], policy).Raise? {
      SuccessesFirstUncaught(outcomes[..n], policy);
      var i :| 0 <= i < n && outcomes[..n][i] == Raise(e) && !Caught(policy, outcomes[..n][i].exception) &&
               forall k :: 0 <= k < i && outcomes[..n][k].Raise? ==> Caught(policy, outcomes[..n][k].exception);
      assert outcomes[i] == outcomes[..n][i];
      assert forall k :: 0 <= k < i ==> outcomes[k] == outcomes[..n][k];
    } else {
      assert forall k :: 0 <= k < n ==> outcomes[k] == outcomes[..n][k];
      assert outcomes[n] == Raise(e);
    }
  }

  /** The successes of a section, whatever the policy does with the failures. */
  function SectionSuccesses(section: Section, model: string, provider: Provider): seq<Vector>
  {
    Oks(Outcomes(section.examples, model, provider))
  }

  /**
   * A section that completes writes nothing when none of its examples was
   * embedded, and otherwise the numpy mean of its successes under its rubric.
   */
  lemma SectionAverageValue(section: Section, model: string, provider: Provider, policy: CatchPolicy)
    requires SectionAverage(section, model, provider, policy).Ok?
    ensures var vs := SectionSuccesses(section, model, provider);
            var u := SectionAverage(section, model, provider, policy).value;
            (u.None? <==> |vs| == 0) &&
            (u.Some? ==> u.value.0 == section.rubric && NpMean(vs) == Ok(u.value.1))
  {
    SuccessesOk(Outcomes(section.examples, model, provider), policy);
  }

  /**
   * The writes complete exactly when every section completes; they are then
   * the sections' writes in order, and otherwise the exception is that of a
   * section.
   */
  lemma {:induction false} AverageWritesShape(rubricsData: Corpus, model: string, provider: Provider, policy: CatchPolicy)
    ensures var w := AverageWrites(rubricsData, model, provider, policy);
            w.Ok? <==> forall s :: 0 <= s < |rubricsData| ==> SectionAverage(rubricsData[s], model, provider, policy).Ok?
    ensures var w := AverageWrites(rubricsData, model, provider, policy);
            w.Ok? ==> |w.value| == |rubricsData| &&
                      forall s :: 0 <= s < |rubricsData| ==> Ok(w.value[s]) == SectionAverage(rubricsData[s], model, provider, policy)
    ensures var w := AverageWrites(rubricsData, model, provider, policy);
            w.Raise? ==> exists s :: 0 <= s < |rubricsData| &&
                                     SectionAverage(rubricsData[s], model, provider, policy) == Raise(w.exception)
  {
    if rubricsData != [] {
      var n := |rubricsData| - 1;
      AverageWritesShape(rubricsData[..n], model, provider, policy);
      assert forall s :: 0 <= s < n ==> rubricsData[..n][s] == rubricsData[s];
    }
  }

  /** A rubric is a key exactly when one of its sections has a successful embedding. */
  lemma AverageKeys(rubricsData: Corpus, model: string, provider: Provider, policy: CatchPolicy, d: Dict<string, Vector>, rubric: string)
    requires AverageEmbeddingsSpec(rubricsData, model, provider, policy) == Ok(d)
    ensures rubric in Keys(d) <==>
            exists s :: 0 <= s < |rubricsData| && rubricsData[s].rubric == rubric &&
                        |SectionSuccesses(rubricsData[s], model, provider)| > 0
  {
    var us := AverageWrites(rubricsData, model, provider, policy).value;
    AverageWritesShape(rubricsData, model, provider, policy);
    BuildGet(us, rubric);
    LastValueSome(us, rubric);
    if exists s :: 0 <= s < |rubricsData| && rubricsData[s].rubric == rubric &&
                   |SectionSuccesses(rubricsData[s], model, provider)| > 0 {
      var s :| 0 <= s < |rubricsData| && rubricsData[s].rubric == rubric &&
               |SectionSuccesses(rubricsData[s], model, provider)| > 0;
      SectionAverageValue(rubricsData[s], model, provider, policy);
      assert us[s].Some? && us[s].value.0 == rubric;
    }
    if exists i :: 0 <= i < |us| && us[i].Some? && us[i].value.0 == rubric {
      var i :| 0 <= i < |us| && us[i].Some? && us[i].value.0 == rubric;
      SectionAverageValue(rubricsData[i], model, provider, policy);
    }
  }

  /**
   * The value under a rubric is the mean of the successes of the last
   * section of that rubric that has any.
   */
  lemma AverageValue(rubricsData: Corpus, model: string, provider: Provider, policy: CatchPolicy, d: Dict<string, Vector>, rubric: string)
    requires AverageEmbeddingsSpec(rubricsData, model, provider, policy) == Ok(d)
    requires rubric in Keys(d)
    ensures exists s :: 0 <= s < |rubricsData| && rubricsData[s].rubric == rubric &&
                        |SectionSuccesses(rubricsData[s], model, provider)| > 0 &&
                        NpMean(SectionSuccesses(rubricsData[s], model, provider)) == Ok(Get(d, rubric).value) &&
                        forall t :: s < t < |rubricsData| && rubricsData[t].rubric == rubric ==>
                          |SectionSuccesses(rubricsData[t], model, provider)| == 0
  {
    var us := AverageWrites(rubricsData, model, provider, policy).value;
    AverageWritesShape(rubricsData, model, provider, policy);
    BuildGet(us, rubric);
    LastValueIsLast(us, rubric);
    var v := Get(d, rubric).value;
    var s :| 0 <= s < |us| && us[s] == Some((rubric, v)) &&
             (forall t :: s < t < |us| ==> !(us[t].Some? && us[t].value.0 == rubric));
    SectionAverageValue(rubricsData[s], model, provider, policy);
    forall t | s < t < |rubricsData| && rubricsData[t].rubric == rubric
      ensures |SectionSuccesses(rubricsData[t], model, provider)| == 0
    {
      SectionAverageValue(rubricsData[t], model, provider, policy);
    }
  }

  /** Catching everything, the inner loop always completes with every success. */
  lemma SuccessesCatchAll(outcomes: seq<Result<Vector>>)
    ensures Successes(outcomes, CatchAll) == Ok(Oks(outcomes))
  {
    SuccessesOk(outcomes, CatchAll);
  }

  /**
   * Catching everything, the only exception left is numpy's, from the mean of
   * successes of different lengths.
   */
  lemma CatchAllOnlyMeanRaises(rubricsData: Corpus, model: string, provider: Provider)
    requires AverageEmbeddingsSpec(rubricsData, model, provider, CatchAll).Raise?
    ensures AverageEmbeddingsSpec(rubricsData, model, provider, CatchAll).exception.kind == ValueError
    ensures exists s :: 0 <= s < |rubricsData| &&
                        var vs := SectionSuccesses(rubricsData[s], model, provider);
                        |vs| > 0 && NpMean(vs).Raise?
  {
    AverageWritesShape(rubricsData, model, provider, CatchAll);
    var e := AverageWrites(rubricsData, model, provider, CatchAll).exception;
    var s :| 0 <= s < |rubricsData| && SectionAverage(rubricsData[s], model, provider, CatchAll) == Raise(e);
    SuccessesCatchAll(Outcomes(rubricsData[s].examples, model, provider));
  }

  /**
   * Catching only JSONDecodeError, any other failure of any example's
   * embedding call aborts the whole computation.
   */
  lemma JsonPolicyAborts(rubricsData: Corpus, model: string, provider: Provider, s: nat, i: nat)
    requires s < |rubricsData| && i < |rubricsData[s].examples|
    requires var o := Outcome(rubricsData[s].examples[i], model, provider);
             o.Raise? && o.exception.kind != JSONDecodeError
    ensures AverageEmbeddingsSpec(rubricsData, model, provider, CatchJsonDecodeError).Raise?
  {
    var os := Outcomes(rubricsData[s].examples, model, provider);
    assert os[i] == Outcome(rubricsData[s].examples[i], model, provider);
    SuccessesOk(os, CatchJsonDecodeError);
    AverageWritesShape(rubricsData, model, provider, CatchJsonDecodeError);
  }

  /** Every failing embedding call of the corpus raises JSONDecodeError. */
  predicate OnlyJsonFailures(rubricsData: Corpus, model: string, provider: Provider)
  {
    forall s, i :: 0 <= s < |rubricsData| && 0 <= i < |rubricsData[s].examples| &&
                   Outcome(rubricsData[s].examples[i], model, provider).Raise? ==>
                   Outcome(rubricsData[s].examples[i], model, provider).exception.kind == JSONDecodeError
  }

  lemma {:induction false} SectionAveragesAgree(rubricsData: Corpus, model: string, provider: Provider)
    requires forall s :: 0 <= s < |rubricsData| ==>
               SectionAverage(rubricsData[s], model, provider, CatchJsonDecodeError) ==
               SectionAverage(rubricsData[s], model, provider, CatchAll)
    ensures AverageWrites(rubricsData, model, provider, CatchJsonDecodeError) ==
            AverageWrites(rubricsData, model, provider, CatchAll)
  {
    if rubricsData != [] {
      var n := |rubricsData| - 1;
      SectionAveragesAgree(rubricsData[..n], model, provider);
    }
  }

  /**
   * When every failure is a JSONDecodeError, both variants compute the same
   * dict: they differ only in which failures they survive.
   */
  lemma PoliciesAgree(rubricsData: Corpus, model: string, provider: Provider)
    requires OnlyJsonFailures(rubricsData, model, provider)
    ensures AverageEmbeddingsSpec(rubricsData, model, provider, CatchJsonDecodeError) ==
            AverageEmbeddingsSpec(rubricsData, model, provider, CatchAll)
  {
    forall s | 0 <= s < |rubricsData|
      ensures SectionAverage(rubricsData[s], model, provider, CatchJsonDecodeError) ==
              SectionAverage(rubricsData[s], model, provider, CatchAll)
    {
      var os := Outcomes(rubricsData[s].examples, model, provider);
      assert forall i :: 0 <= i < |os| ==> os[i] == Outcome(rubricsData[s].examples[i], model, provider);
      SuccessesOk(os, CatchJsonDecodeError);
      SuccessesOk(os, CatchAll);
    }
    SectionAveragesAgree(rubricsData, model, provider);
  }
}
