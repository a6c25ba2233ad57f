/**
 * What both WebScraper.io clients share: the HTTP call as a value, the
 * classification of its failures, the download of one job's records, and
 * the concatenation of the records of many jobs.
 */
module ScrapeJobs {
  import opened Wrappers
  import opened Dicts
  import opened Json
  import opened Utils

  /** What an `httpx.get` or `httpx.post` call does: raise, or return a response. */
  datatype HttpResult = Failed(exception: Exception) | Received(status: int, text: string)

  /** `response.raise_for_status()`: httpx raises HTTPStatusError for every status outside 2xx. */
  function RaiseForStatus(status: int): (r: Option<Exception>)
    ensures r.None? <==> 200 <= status < 300
    ensures r.Some? ==> r.value.kind == HTTPStatusError(status)
  {
    if 200 <= status < 300 then None else Some(Exception(HTTPStatusError(status), "HTTP status error"))
  }

  /** The body of a successful response, after `raise_for_status()`. */
  function ResponseText(r: HttpResult): (t: Result<string>)
    ensures t.Ok? <==> r.Received? && 200 <= r.status < 300
    ensures t.Ok? ==> t.value == r.text
    ensures r.Failed? ==> t == Raise(r.exception)
  {
    match r
    case Failed(e) => Raise(e)
    case Received(status, text) =>
      match RaiseForStatus(status)
      case Some(e) => Raise(e)
      case None => Ok(text)
  }

  /** `response.json()` after `raise_for_status()`. */
  function ResponseJson(r: HttpResult, parse: Parser): Result<Json>
  {
    match ResponseText(r)
    case Raise(e) => Raise(e)
    case Ok(text) => parse(text)
  }

  /** `response.json().get("data", {}).get("id")`: a missing `data` or `id` gives None. */
  function JobId(body: Json): (r: Result<Json>)
    ensures !body.JObject? ==> r.Raise?
    ensures body.JObject? && "data" !in Keys(body.members) ==> r == Ok(JNull)
  {
    match GetOr(body, "data", JObject([]))
    case Raise(e) => Raise(e)
    case Ok(data) => GetOr(data, "id", JNull)
  }

  /**
   * One sitemap of `create_scraping_jobs`: the call, `raise_for_status()`,
   * `response.json()` and the id lookup; a falsy id gives None.
   */
  function JobIdStep(r: HttpResult, parse: Parser): (step: Result<Option<Json>>)
    ensures step.Ok? && step.value.Some? ==> Truthy(step.value.value)
  {
    match ResponseJson(r, parse)
    case Raise(e) => Raise(e)
    case Ok(body) =>
      match JobId(body)
      case Raise(e) => Raise(e)
      case Ok(id) => if Truthy(id) then Ok(Some(id)) else Ok(None)
  }

  /** A body without a truthy `data.id` gives no id, whatever else it holds. */
  lemma NoIdNoJob(status: int, text: string, parse: Parser)
    requires 200 <= status < 300 && parse(text).Ok?
    requires JobId(parse(text).value).Ok? && !Truthy(JobId(parse(text).value).value)
    ensures JobIdStep(Received(status, text), parse) == Ok(None)
  {
  }

  /** An error status makes the step raise HTTPStatusError with that status. */
  lemma StatusErrorRaises(status: int, text: string, parse: Parser)
    requires !(200 <= status < 300)
    ensures JobIdStep(Received(status, text), parse).Raise?
    ensures JobIdStep(Received(status, text), parse).exception.kind == HTTPStatusError(status)
  {
  }

  /** The truthy ids the sitemaps' steps return, in sitemap order; raising steps give none. */
  function AcceptedJobIds(sitemapIds: seq<string>, post: string -> HttpResult, parse: Parser): (ids: seq<Json>)
    ensures |ids| <= |sitemapIds|
  {
    if |sitemapIds| == 0 then []
    else
      var n := |sitemapIds| - 1;
      AcceptedJobIds(sitemapIds[..n], post, parse) +
        (match JobIdStep(post(sitemapIds[n]), parse)
         case Ok(Some(id)) => [id]
         case _ => [])
  }

  /** `[str(job_id) for job_id in ids]` */
  function Stringify(ids: seq<Json>, str: Json -> string): (ss: seq<string>)
    ensures |ss| == |ids|
    ensures forall k :: 0 <= k < |ids| ==> ss[k] == str(ids[k])
  {
    seq(|ids|, k requires 0 <= k < |ids| => str(ids[k]))
  }

  /** At most one id per sitemap, and every id kept is truthy. */
  lemma {:induction false} AcceptedBounds(sitemapIds: seq<string>, post: string -> HttpResult, parse: Parser)
    ensures |AcceptedJobIds(sitemapIds, post, parse)| <= |sitemapIds|
    ensures forall k :: 0 <= k < |AcceptedJobIds(sitemapIds, post, parse)| ==> Truthy(AcceptedJobIds(sitemapIds, post, parse)[k])
  {
    if |sitemapIds| > 0 {
      var n := |sitemapIds| - 1;
      AcceptedBounds(sitemapIds[..n], post, parse);
      var prev := AcceptedJobIds(sitemapIds[..n], post, parse);
      var ids := AcceptedJobIds(sitemapIds, post, parse);
      var step := JobIdStep(post(sitemapIds[n]), parse);
      var tail := match step case Ok(Some(id)) => [id] case _ => [];
      assert ids == prev + tail;
      assert forall k :: 0 <= k < |tail| ==> Truthy(tail[k]);
      forall k | 0 <= k < |ids|
        ensures Truthy(ids[k])
      {
        if k < |prev| { assert ids[k] == prev[k]; } else { assert ids[k] == tail[k - |prev|]; }
      }
    }
  }

  /** The ids of two runs of sitemaps come out concatenated, in sitemap order. */
  lemma {:induction false} AcceptedConcat(a: seq<string>, b: seq<string>, post: string -> HttpResult, parse: Parser)
    ensures AcceptedJobIds(a + b, post, parse) == AcceptedJobIds(a, post, parse) + AcceptedJobIds(b, post, parse)
  {
    if |b| == 0 {
      assert a + b == a;
    } else {
      var n := |b| - 1;
      assert (a + b)[..|a + b| - 1] == a + b[..n] && (a + b)[|a + b| - 1] == b[n];
      AcceptedConcat(a, b[..n], post, parse);
    }
  }

  /** A single sitemap contributes its id when it gives one, and nothing otherwise. */
  lemma AcceptedSingle(x: string, post: string -> HttpResult, parse: Parser)
    ensures var step := JobIdStep(post(x), parse);
            AcceptedJobIds([x], post, parse) == if step.Ok? && step.value.Some? then [step.value.value] else []
  {
    assert [x][..0] == [];
  }

  const HTTP_ERROR: string := "HTTP error"
  const REQUEST_ERROR: string := "Request error"
  const PROCESS_FAILED: string := "Failed to process data"

  /** `{"error": "HTTP error", "status_code": ..., "details": str(error)}` */
  function HttpErrorDict(statusCode: int, details: string): (j: Json)
    ensures j.JObject? && !IsList(j)
  {
    JObject([("error", JString(HTTP_ERROR)), ("status_code", JInt(statusCode)), ("details", JString(details))])
  }

  /**
   * `get_scraping_job_details`: the decoded body; an HTTP status error or
   * a request error becomes an error dict, anything else propagates.
   */
  function GetScrapingJobDetails(r: HttpResult, parse: Parser): (d: Result<Json>)
    ensures d.Raise? ==> !d.exception.kind.HTTPStatusError? && d.exception.kind != RequestError
  {
    match ResponseJson(r, parse)
    case Ok(j) => Ok(j)
    case Raise(e) =>
      if e.kind.HTTPStatusError? then Ok(HttpErrorDict(e.kind.statusCode, e.message))
      else if e.kind == RequestError then Ok(ErrorDict(REQUEST_ERROR, e.message))
      else Raise(e)
  }

  /**
   * The failures of `get_scraping_job_details`: an error status gives the
   * "HTTP error" dict with that status code, a request error the
   * "Request error" dict; a successful response gives its decoded body, and
   * a body that is not JSON or any other exception propagates.
   */
  lemma JobDetailsCases(r: HttpResult, parse: Parser)
    ensures r.Received? && !(200 <= r.status < 300) ==>
              GetScrapingJobDetails(r, parse) == Ok(HttpErrorDict(r.status, RaiseForStatus(r.status).value.message))
    ensures r.Failed? && r.exception.kind == RequestError ==>
              GetScrapingJobDetails(r, parse) == Ok(ErrorDict(REQUEST_ERROR, r.exception.message))
    ensures r.Failed? && r.exception.kind != RequestError && !r.exception.kind.HTTPStatusError? ==>
              GetScrapingJobDetails(r, parse) == Raise(r.exception)
    ensures r.Received? && 200 <= r.status < 300 && parse(r.text).Ok? ==>
              GetScrapingJobDetails(r, parse) == parse(r.text)
    ensures r.Received? && 200 <= r.status < 300 && parse(r.text).Raise? && parse(r.text).exception.kind == JSONDecodeError ==>
              GetScrapingJobDetails(r, parse) == parse(r.text)
  {
  }

  /**
   * `download_scraping_job_data`: the processed records of the job, or the
   * "Failed to process data" dict for any exception; it never raises.
   */
  function DownloadScrapingJobData(r: HttpResult, parse: Parser): (d: Json)
    ensures IsList(d) || d.JObject?
  {
    match ResponseText(r)
    case Raise(e) => ErrorDict(PROCESS_FAILED, e.message)
    case Ok(text) =>
      match ProcessRawResponse(text, parse)
      case Ok(j) => j
      case Raise(e) => ErrorDict(PROCESS_FAILED, e.message)
  }

  /**
   * The download is a list exactly when the response is a success and every
   * kept line of its body parses, and then it holds those records in order;
   * otherwise it is an error dict.
   */
  lemma DownloadRecords(r: HttpResult, parse: Parser)
    ensures var d := DownloadScrapingJobData(r, parse);
            IsList(d) <==> r.Received? && 200 <= r.status < 300 &&
                           forall k :: 0 <= k < |KeptLines(r.text)| ==> parse(KeptLines(r.text)[k]).Ok?
    ensures var d := DownloadScrapingJobData(r, parse);
            IsList(d) ==> |d.items| == |KeptLines(r.text)| &&
                          forall k :: 0 <= k < |d.items| ==> d.items[k] == parse(KeptLines(r.text)[k]).value
    ensures var d := DownloadScrapingJobData(r, parse);
            !IsList(d) ==> d.JObject? && |d.members| == 2 && d.members[0].0 == "error" &&
                           (d.members[0].1 == JString(PROCESS_FAILED) || d.members[0].1 == JString(DECODE_FAILED))
  {
    if r.Received? && 200 <= r.status < 300 {
      ProcessRawResponseRecords(r.text, parse);
    }
  }

  /** `combined_data` after the loop: the records of the list results, in job order. */
  function Combined(results: seq<Json>): (c: seq<Json>)
    ensures (forall k :: 0 <= k < |results| ==> !IsList(results[k])) ==> c == []
  {
    if |results| == 0 then []
    else
      var last := results[|results| - 1];
      Combined(results[..|results| - 1]) + (if IsList(last) then last.items else [])
  }

  /** The number of records over the list results. */
  function RecordCount(results: seq<Json>): nat
  {
    if |results| == 0 then 0
    else
      var last := results[|results| - 1];
      RecordCount(results[..|results| - 1]) + (if IsList(last) then |last.items| else 0)
  }

  /** Combining two runs of results is combining each and concatenating, in order. */
  lemma {:induction false} CombinedConcat(a: seq<Json>, b: seq<Json>)
    ensures Combined(a + b) == Combined(a) + Combined(b)
  {
    if |b| == 0 {
      assert a + b == a;
    } else {
      var n := |b| - 1;
      assert (a + b)[..|a + b| - 1] == a + b[..n] && (a + b)[|a + b| - 1] == b[n];
      CombinedConcat(a, b[..n]);
    }
  }

  /** A list result contributes its records; anything else contributes nothing. */
  lemma CombinedOne(x: Json)
    ensures Combined([x]) == if IsList(x) then x.items else []
  {
    assert [x][..0] == [];
  }

  /** The combined length is the sum of the lengths of the list results. */
  lemma {:induction false} CombinedLength(results: seq<Json>)
    ensures |Combined(results)| == RecordCount(results)
  {
    if |results| > 0 {
      CombinedLength(results[..|results| - 1]);
    }
  }

  /** A record is combined iff it is one of the records of a list result. */
  lemma {:induction false} CombinedMembers(results: seq<Json>, x: Json)
    ensures x in Combined(results) <==> exists i :: 0 <= i < |results| && IsList(results[i]) && x in results[i].items
  {
    if |results| > 0 {
      var n := |results| - 1;
      CombinedMembers(results[..n], x);
      if x in Combined(results) {
        if x !in Combined(results[..n]) {
          assert IsList(results[n]) && x in results[n].items;
        } else {
          var i :| 0 <= i < n && IsList(results[..n][i]) && x in results[..n][i].items;
          assert results[..n][i] == results[i];
        }
      } else {
        forall i | 0 <= i < |results| && IsList(results[i])
          ensures x !in results[i].items
        {
          if i < n { assert results[..n][i] == results[i]; }
        }
      }
    }
  }

  /** The download of every job, in order. */
  function Downloads(jobIds: seq<string>, fetch: string -> HttpResult, parse: Parser): (ds: seq<Json>)
    ensures |ds| == |jobIds|
    ensures forall i :: 0 <= i < |jobIds| ==> ds[i] == DownloadScrapingJobData(fetch(jobIds[i]), parse)
  {
    seq(|jobIds|, i requires 0 <= i < |jobIds| => DownloadScrapingJobData(fetch(jobIds[i]), parse))
  }

  /**
   * `download_and_process_multiple_jobs`: download every job in turn and
   * extend the combined list with each result that is a list.
   */
  method DownloadAndProcessMultipleJobs(jobIds: seq<string>, fetch: string -> HttpResult, parse: Parser)
    returns (combinedData: seq<Json>)
    ensures combinedData == Combined(Downloads(jobIds, fetch, parse))
  {
    combinedData := [];
    ghost var ds := Downloads(jobIds, fetch, parse);
    for i := 0 to |jobIds|
      invariant combinedData == Combined(ds[..i])
    {
      var data := DownloadScrapingJobData(fetch(jobIds[i]), parse);
      assert ds[..i + 1][..i] == ds[..i];
      if IsList(data) {
        combinedData := combinedData + data.items;
      }
    }
    assert ds[..|jobIds|] == ds;
  }
}
