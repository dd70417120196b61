/** The job search against the 104 job site: of the postings in the decoded
    response, the first ten become { title, company, url, description } records.
    The HTTP request itself is not modelled; its decoded response is the input. */
module JobScraper {
  import opened InterviewTypes

  /** The posting's "link" entry: absent (so `.get('link', {})` gives {}), an
      object whose "job" entry may be missing, or a value that is not an object,
      on which `.get('job')` raises AttributeError. */
  datatype LinkField = NoLink | LinkObject(job: Option<string>) | LinkNotObject

  /** One posting as the site returns it; None marks an absent key. */
  datatype RawJob = RawJob(jobNo: Option<string>, jobName: Option<string>, custName: Option<string>,
                           link: LinkField, description: Option<string>)

  /** One result entry; a title or company of None is serialised as null. */
  datatype Job = Job(title: Option<string>, company: Option<string>, url: string, description: string)

  /** The decoded response: status code, and the body as far as the code reads
      it. `Unreadable` is a body on which resp.json() or the `.get` chain
      raises; `JobList(None)` is one without "data" or without "list". */
  datatype SearchBody = Unreadable | JobList(list: Option<seq<RawJob>>)
  datatype SearchResponse = SearchResponse(status: int, body: SearchBody)

  const MaxJobs: nat := 10
  const SitePrefix: string := "https:"
  const FallbackJobUrl: string := "https://www.104.com.tw/job/"

  /** f"{job_no}" renders a missing number as "None". */
  function Rendered(value: Option<string>): string {
    value.GetOr("None")
  }

  /** A posting whose "link" is not an object makes the loop raise. */
  predicate Raises(job: RawJob) {
    job.link.LinkNotObject?
  }

  /** The relative link, when present and non-empty (truthy). */
  function RelativeLink(job: RawJob): Option<string> {
    match job.link
    case LinkObject(Some(rel)) => if rel != "" then Some(rel) else None
    case _ => None
  }

  /** The record built for one posting that does not raise. */
  function ToJob(job: RawJob): (r: Job)
    requires !Raises(job)
    ensures RelativeLink(job).Some? ==> r.url == SitePrefix + RelativeLink(job).value
    ensures RelativeLink(job).None? ==> r.url == FallbackJobUrl + Rendered(job.jobNo)
    ensures r.title == job.jobName && r.company == job.custName
    ensures r.description == job.description.GetOr("")
  {
    var url := match RelativeLink(job)
      case Some(rel) => SitePrefix + rel
      case None => FallbackJobUrl + Rendered(job.jobNo);
    Job(job.jobName, job.custName, url, job.description.GetOr(""))
  }

  function Min(a: nat, b: nat): nat {
    if a <= b then a else b
  }

  /** The `for job in job_list[:10]` loop; None when a posting in that prefix
      raises, which the surrounding `except Exception` turns into []. */
  method BuildResults(jobList: seq<RawJob>) returns (result: Option<seq<Job>>)
    ensures result.Some? <==> forall i :: 0 <= i < Min(MaxJobs, |jobList|) ==> !Raises(jobList[i])
    ensures result.Some? ==> |result.value| == Min(MaxJobs, |jobList|)
    ensures result.Some? ==> forall i :: 0 <= i < |result.value| ==> result.value[i] == ToJob(jobList[i])
  {
    var prefix := if |jobList| <= MaxJobs then jobList else jobList[..MaxJobs];
    var built: seq<Job> := [];
    var i := 0;
    while i < |prefix|
      invariant 0 <= i <= |prefix| == Min(MaxJobs, |jobList|)
      invariant forall k :: 0 <= k < i ==> !Raises(prefix[k])
      invariant |built| == i
      invariant forall k :: 0 <= k < i ==> built[k] == ToJob(prefix[k])
    {
      var job := prefix[i];
      if Raises(job) {
        return None;
      }
      built := built + [ToJob(job)];
      i := i + 1;
    }
    result := Some(built);
  }

  /** Reference definition of the search result: the first ten postings mapped
      one by one, or [] when the status is not 200, the body cannot be read, or
      one of those postings raises. */
  function Listed(response: SearchResponse): (r: seq<Job>)
    ensures |r| <= MaxJobs
    ensures r != [] ==> response.status == 200 && response.body.JobList?
  {
    if response.status != 200 then []
    else
      match response.body
      case Unreadable => []
      case JobList(list) =>
        var postings := list.GetOr([]);
        var n := Min(MaxJobs, |postings|);
        if forall i :: 0 <= i < n ==> !Raises(postings[i]) then
          seq(n, i requires 0 <= i < n && !Raises(postings[i]) => ToJob(postings[i]))
        else []
  }

  /** get_jobs_from_104: [] for a non-200 status, an unreadable body or a
      raising posting; otherwise the mapped first ten postings. */
  method GetJobsFrom104(response: SearchResponse) returns (jobs: seq<Job>)
    ensures jobs == Listed(response)
    ensures response.status != 200 ==> jobs == []
    ensures response.body.Unreadable? ==> jobs == []
    ensures response.status == 200 && response.body == JobList(None) ==> jobs == []
    ensures response.status == 200 && response.body.JobList? && response.body.list.Some? ==>
      var list := response.body.list.value;
      if forall i :: 0 <= i < Min(MaxJobs, |list|) ==> !Raises(list[i]) then
        |jobs| == Min(MaxJobs, |list|) && forall i :: 0 <= i < |jobs| ==> jobs[i] == ToJob(list[i])
      else
        jobs == []
  {
    if response.status != 200 {
      return [];
    }
    match response.body
    case Unreadable =>
      jobs := [];
    case JobList(list) =>
      var built := BuildResults(list.GetOr([]));
      jobs := built.GetOr([]);
  }

  /** Every url starts with "https:", whichever branch built it. */
  lemma UrlIsHttps(job: RawJob)
    requires !Raises(job)
    ensures |ToJob(job).url| >= |SitePrefix| && ToJob(job).url[..|SitePrefix|] == SitePrefix
  {
    var url := ToJob(job).url;
    if RelativeLink(job).None? {
      assert FallbackJobUrl[..|SitePrefix|] == SitePrefix;
      assert url[..|SitePrefix|] == FallbackJobUrl[..|SitePrefix|];
    }
  }

  /** The result holds at most ten records, each with an https url, and a
      non-empty result keeps the site's order: record i comes from posting i. */
  lemma ListedProperties(response: SearchResponse)
    ensures |Listed(response)| <= MaxJobs
    ensures forall i :: 0 <= i < |Listed(response)| ==>
      |Listed(response)[i].url| >= |SitePrefix| && Listed(response)[i].url[..|SitePrefix|] == SitePrefix
    ensures Listed(response) != [] ==>
      && response.status == 200 && response.body.JobList? && response.body.list.Some?
      && forall i :: 0 <= i < |Listed(response)| ==>
           !Raises(response.body.list.value[i]) && Listed(response)[i] == ToJob(response.body.list.value[i])
  {
    var jobs := Listed(response);
    if jobs != [] {
      var postings := response.body.list.value;
      forall i | 0 <= i < |jobs|
        ensures |jobs[i].url| >= |SitePrefix| && jobs[i].url[..|SitePrefix|] == SitePrefix
      {
        UrlIsHttps(postings[i]);
      }
    }
  }
}
