/**
 * `WebScraperIoClient.create_scraping_jobs` of webscraper_io_client.py: one
 * job per sitemap, ids converted with `str`, and every exception of a
 * sitemap's request propagating out of the loop.
 */
module WebScraperIoClient {
  import opened Wrappers
  import opened Dicts
  import opened Json
  import opened ScrapeJobs

  const MISSING_SITEMAP_ID := Exception(KeyError, "'sitemap_id'")

  /** The ids collected for the sitemaps, or the first exception raised. */
  function CreatedJobIds(sitemaps: seq<Dict<string, string>>, post: string -> HttpResult, parse: Parser, str: Json -> string): (r: Result<seq<string>>)
    ensures r.Ok? ==> |r.value| <= |sitemaps|
  {
    if |sitemaps| == 0 then Ok([])
    else
      var n := |sitemaps| - 1;
      match CreatedJobIds(sitemaps[..n], post, parse, str)
      case Raise(e) => Raise(e)
      case Ok(ids) =>
        match Get(sitemaps[n], "sitemap_id")
        case None => Raise(MISSING_SITEMAP_ID)
        case Some(sitemapId) =>
          match JobIdStep(post(sitemapId), parse)
          case Raise(e) => Raise(e)
          case Ok(None) => Ok(ids)
          case Ok(Some(id)) => Ok(ids + [str(id)])
  }

  /**
   * `create_scraping_jobs`: for each sitemap in turn, post a job, check the
   * status, and keep the stringified id when there is one.
   */
  method CreateScrapingJobs(sitemaps: seq<Dict<string, string>>, post: string -> HttpResult, parse: Parser, str: Json -> string)
    returns (r: Result<seq<string>>)
    ensures r == CreatedJobIds(sitemaps, post, parse, str)
  {
    var jobIds: seq<string> := [];
    for i := 0 to |sitemaps|
      invariant CreatedJobIds(sitemaps[..i], post, parse, str) == Ok(jobIds)
    {
      assert sitemaps[..i + 1][..i] == sitemaps[..i];
      var sitemapId := Get(sitemaps[i], "sitemap_id");
      if sitemapId.None? {
        CreatedRaisePersists(sitemaps, post, parse, str, i + 1);
        return Raise(MISSING_SITEMAP_ID);
      }
      var jobId := JobIdStep(post(sitemapId.value), parse);
      if jobId.Raise? {
        CreatedRaisePersists(sitemaps, post, parse, str, i + 1);
        return Raise(jobId.exception);
      }
      if jobId.value.Some? {
        jobIds := jobIds + [str(jobId.value.value)];
      }
    }
    assert sitemaps[..|sitemaps|] == sitemaps;
    return Ok(jobIds);
  }

  /** Once a prefix of the sitemaps raises, the whole call raises the same exception. */
  lemma {:induction false} CreatedRaisePersists(sitemaps: seq<Dict<string, string>>, post: string -> HttpResult, parse: Parser, str: Json -> string, k: nat)
    requires k <= |sitemaps| && CreatedJobIds(sitemaps[..k], post, parse, str).Raise?
    ensures CreatedJobIds(sitemaps, post, parse, str) == CreatedJobIds(sitemaps[..k], post, parse, str)
    decreases |sitemaps| - k
  {
    if k < |sitemaps| {
      assert sitemaps[..k + 1][..k] == sitemaps[..k];
      CreatedRaisePersists(sitemaps, post, parse, str, k + 1);
    } else {
      assert sitemaps[..k] == sitemaps;
    }
  }

  /** Every sitemap carries a `sitemap_id`. */
  predicate HasSitemapIds(sitemaps: seq<Dict<string, string>>)
  {
    forall i :: 0 <= i < |sitemaps| ==> "sitemap_id" in Keys(sitemaps[i])
  }

  function SitemapIds(sitemaps: seq<Dict<string, string>>): (ids: seq<string>)
    requires HasSitemapIds(sitemaps)
    ensures |ids| == |sitemaps|
    ensures forall i :: 0 <= i < |sitemaps| ==> Get(sitemaps[i], "sitemap_id") == Some(ids[i])
  {
    seq(|sitemaps|, i requires 0 <= i < |sitemaps| => Get(sitemaps[i], "sitemap_id").value)
  }

  /** No sitemap's request raises. */
  predicate NoStepRaises(sitemapIds: seq<string>, post: string -> HttpResult, parse: Parser)
  {
    forall i :: 0 <= i < |sitemapIds| ==> JobIdStep(post(sitemapIds[i]), parse).Ok?
  }

  /** The same loop over the sitemap ids themselves. */
  function CreatedFromIds(ids: seq<string>, post: string -> HttpResult, parse: Parser, str: Json -> string): Result<seq<string>>
  {
    if |ids| == 0 then Ok([])
    else
      var n := |ids| - 1;
      match CreatedFromIds(ids[..n], post, parse, str)
      case Raise(e) => Raise(e)
      case Ok(jobIds) =>
        match JobIdStep(post(ids[n]), parse)
        case Raise(e) => Raise(e)
        case Ok(None) => Ok(jobIds)
        case Ok(Some(id)) => Ok(jobIds + [str(id)])
  }

  /** With every `sitemap_id` present, the key lookups change nothing. */
  lemma {:induction false} LookupsSucceed(sitemaps: seq<Dict<string, string>>, post: string -> HttpResult, parse: Parser, str: Json -> string)
    requires HasSitemapIds(sitemaps)
    ensures CreatedJobIds(sitemaps, post, parse, str) == CreatedFromIds(SitemapIds(sitemaps), post, parse, str)
  {
    if |sitemaps| > 0 {
      var n := |sitemaps| - 1;
      var init := sitemaps[..n];
      assert HasSitemapIds(init) by {
        forall i | 0 <= i < n ensures "sitemap_id" in Keys(init[i]) { assert init[i] == sitemaps[i]; }
      }
      LookupsSucceed(init, post, parse, str);
      var ids := SitemapIds(sitemaps);
      assert SitemapIds(init) == ids[..n] by {
        forall i | 0 <= i < n ensures SitemapIds(init)[i] == ids[i] { assert init[i] == sitemaps[i]; }
      }
      assert Get(sitemaps[n], "sitemap_id") == Some(ids[n]);
    }
  }

  /** A sitemap without `sitemap_id` makes the call raise. */
  lemma {:induction false} LookupFails(sitemaps: seq<Dict<string, string>>, post: string -> HttpResult, parse: Parser, str: Json -> string)
    requires !HasSitemapIds(sitemaps)
    ensures CreatedJobIds(sitemaps, post, parse, str).Raise?
  {
    var n := |sitemaps| - 1;
    var init := sitemaps[..n];
    if HasSitemapIds(init) {
      assert "sitemap_id" !in Keys(sitemaps[n]) by {
        if "sitemap_id" in Keys(sitemaps[n]) {
          forall i | 0 <= i < |sitemaps| ensures "sitemap_id" in Keys(sitemaps[i]) {
            if i < n { assert sitemaps[i] == init[i]; }
          }
        }
      }
    } else {
      LookupFails(init, post, parse, str);
    }
  }

  /**
   * Over the ids, a list comes back iff no request raises, and it is the
   * draft client's list of ids, stringified.
   */
  lemma {:induction false} CreatedFromIdsOk(ids: seq<string>, post: string -> HttpResult, parse: Parser, str: Json -> string)
    ensures CreatedFromIds(ids, post, parse, str).Ok? <==> NoStepRaises(ids, post, parse)
    ensures CreatedFromIds(ids, post, parse, str).Ok? ==>
              CreatedFromIds(ids, post, parse, str).value == Stringify(AcceptedJobIds(ids, post, parse), str)
  {
    if |ids| > 0 {
      CreatedFromIdsOk(ids[..|ids| - 1], post, parse, str);
      NoStepRaisesLast(ids, post, parse);
    }
  }

  lemma NoStepRaisesLast(ids: seq<string>, post: string -> HttpResult, parse: Parser)
    requires |ids| > 0
    ensures var n := |ids| - 1;
            NoStepRaises(ids, post, parse) <==> NoStepRaises(ids[..n], post, parse) && JobIdStep(post(ids[n]), parse).Ok?
  {
    var n := |ids| - 1;
    if NoStepRaises(ids[..n], post, parse) && JobIdStep(post(ids[n]), parse).Ok? {
      forall i | 0 <= i < |ids| ensures JobIdStep(post(ids[i]), parse).Ok? {
        if i < n { assert ids[i] == ids[..n][i]; }
      }
    }
    if NoStepRaises(ids, post, parse) {
      forall i | 0 <= i < n ensures JobIdStep(post(ids[..n][i]), parse).Ok? {
        assert ids[..n][i] == ids[i];
      }
    }
  }

  /**
   * A list comes back iff every sitemap has an id and no request raises;
   * it then holds, in sitemap order, the truthy ids the draft client
   * collects for the same responses, but stringified; so there is at most
   * one per sitemap.
   */
  lemma CreatedJobIdsOk(sitemaps: seq<Dict<string, string>>, post: string -> HttpResult, parse: Parser, str: Json -> string)
    ensures CreatedJobIds(sitemaps, post, parse, str).Ok? <==>
              HasSitemapIds(sitemaps) && NoStepRaises(SitemapIds(sitemaps), post, parse)
    ensures CreatedJobIds(sitemaps, post, parse, str).Ok? ==>
              HasSitemapIds(sitemaps) &&
              CreatedJobIds(sitemaps, post, parse, str).value == Stringify(AcceptedJobIds(SitemapIds(sitemaps), post, parse), str) &&
              |CreatedJobIds(sitemaps, post, parse, str).value| <= |sitemaps|
  {
    if HasSitemapIds(sitemaps) {
      LookupsSucceed(sitemaps, post, parse, str);
      CreatedFromIdsOk(SitemapIds(sitemaps), post, parse, str);
      AcceptedBounds(SitemapIds(sitemaps), post, parse);
    } else {
      LookupFails(sitemaps, post, parse, str);
    }
  }

  /** Once a prefix of the ids raises, the whole loop raises the same exception. */
  lemma {:induction false} FromIdsRaisePersists(ids: seq<string>, post: string -> HttpResult, parse: Parser, str: Json -> string, k: nat)
    requires k <= |ids| && CreatedFromIds(ids[..k], post, parse, str).Raise?
    ensures CreatedFromIds(ids, post, parse, str) == CreatedFromIds(ids[..k], post, parse, str)
    decreases |ids| - k
  {
    if k < |ids| {
      assert ids[..k + 1][..k] == ids[..k];
      FromIdsRaisePersists(ids, post, parse, str, k + 1);
    } else {
      assert ids[..k] == ids;
    }
  }

  /** Over the ids: the first request that raises ends the loop with its exception. */
  lemma FromIdsFirstFailure(ids: seq<string>, post: string -> HttpResult, parse: Parser, str: Json -> string, k: nat)
    requires k < |ids| && NoStepRaises(ids[..k], post, parse) && JobIdStep(post(ids[k]), parse).Raise?
    ensures CreatedFromIds(ids, post, parse, str) == Raise(JobIdStep(post(ids[k]), parse).exception)
  {
    CreatedFromIdsOk(ids[..k], post, parse, str);
    var p := ids[..k + 1];
    assert p[..k] == ids[..k] && p[k] == ids[k];
    assert CreatedFromIds(p, post, parse, str) == Raise(JobIdStep(post(ids[k]), parse).exception);
    FromIdsRaisePersists(ids, post, parse, str, k + 1);
  }

  /**
   * The first sitemap whose request raises ends the call with that
   * exception, and no list comes back.
   */
  lemma CreatedStopsAtFirstFailure(sitemaps: seq<Dict<string, string>>, post: string -> HttpResult, parse: Parser, str: Json -> string, k: nat)
    requires HasSitemapIds(sitemaps) && k < |sitemaps|
    requires NoStepRaises(SitemapIds(sitemaps)[..k], post, parse)
    requires JobIdStep(post(SitemapIds(sitemaps)[k]), parse).Raise?
    ensures CreatedJobIds(sitemaps, post, parse, str) == Raise(JobIdStep(post(SitemapIds(sitemaps)[k]), parse).exception)
  {
    LookupsSucceed(sitemaps, post, parse, str);
    FromIdsFirstFailure(SitemapIds(sitemaps), post, parse, str, k);
  }

  /** An error status on a sitemap's post is such an exception: HTTPStatusError is not caught. */
  lemma StatusErrorPropagates(sitemaps: seq<Dict<string, string>>, post: string -> HttpResult, parse: Parser, str: Json -> string, k: nat)
    requires HasSitemapIds(sitemaps) && k < |sitemaps|
    requires NoStepRaises(SitemapIds(sitemaps)[..k], post, parse)
    requires var r := post(SitemapIds(sitemaps)[k]); r.Received? && !(200 <= r.status < 300)
    ensures var r := post(SitemapIds(sitemaps)[k]);
            CreatedJobIds(sitemaps, post, parse, str) == Raise(JobIdStep(r, parse).exception) &&
            JobIdStep(r, parse).exception.kind == HTTPStatusError(r.status)
  {
    var r := post(SitemapIds(sitemaps)[k]);
    StatusErrorRaises(r.status, r.text, parse);
    CreatedStopsAtFirstFailure(sitemaps, post, parse, str, k);
  }
}
