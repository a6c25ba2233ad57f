/**
 * The draft client of api_client.py. It posts one job per sitemap id but
 * catches every exception of a sitemap's request and continues, and it keeps
 * the ids as received instead of converting them to strings; its other
 * operations are those of the shared ScrapeJobs module.
 */
module ApiClient {
  import opened Wrappers
  import opened Json
  import opened ScrapeJobs

  /** `create_scraping_jobs` of the draft: a failing sitemap is skipped. */
  method CreateScrapingJobs(sitemapIds: seq<string>, post: string -> HttpResult, parse: Parser)
    returns (jobIds: seq<Json>)
    ensures jobIds == AcceptedJobIds(sitemapIds, post, parse)
  {
    jobIds := [];
    for i := 0 to |sitemapIds|
      invariant jobIds == AcceptedJobIds(sitemapIds[..i], post, parse)
    {
      assert sitemapIds[..i + 1][..i] == sitemapIds[..i];
      var jobId := JobIdStep(post(sitemapIds[i]), parse);
      if jobId.Ok? && jobId.value.Some? {
        jobIds := jobIds + [jobId.value.value];
      }
    }
    assert sitemapIds[..|sitemapIds|] == sitemapIds;
  }

  /**
   * A sitemap whose request raises, at any position, contributes nothing:
   * the loop carries on with the next sitemap.
   */
  lemma FailingSitemapSkipped(a: seq<string>, x: string, b: seq<string>, post: string -> HttpResult, parse: Parser)
    requires JobIdStep(post(x), parse).Raise?
    ensures AcceptedJobIds(a + [x] + b, post, parse) == AcceptedJobIds(a + b, post, parse)
  {
    AcceptedConcat(a + [x], b, post, parse);
    AcceptedConcat(a, [x], post, parse);
    AcceptedConcat(a, b, post, parse);
    AcceptedSingle(x, post, parse);
  }

  /** A sitemap whose id is falsy contributes nothing either. */
  lemma FalsyIdSkipped(a: seq<string>, x: string, b: seq<string>, post: string -> HttpResult, parse: Parser)
    requires JobIdStep(post(x), parse) == Ok(None)
    ensures AcceptedJobIds(a + [x] + b, post, parse) == AcceptedJobIds(a + b, post, parse)
  {
    AcceptedConcat(a + [x], b, post, parse);
    AcceptedConcat(a, [x], post, parse);
    AcceptedConcat(a, b, post, parse);
    AcceptedSingle(x, post, parse);
  }
}
