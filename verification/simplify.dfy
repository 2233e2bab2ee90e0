/** `simplify`: the projection of a raw record onto the fields the report
    prints. */
module Projection {
  import opened Wrappers
  import opened Records
  import Seqs

  /** The dict `simplify` returns; `None` where `job.get` found nothing. */
  datatype SimpleJob = SimpleJob(
    title: Option<string>,
    company: Option<string>,
    location: Option<string>,
    publisher: Option<string>,
    apply: Option<string>,
    posted: Option<string>,
    description: string)

  /** How much of a description is kept. */
  const DescriptionLimit: int := 200

  const Ellipsis: string := "..."

  /** `s[:200] + "..."`: always ends in the ellipsis, is at most 203
      characters long, and loses nothing of a description of at most 200. */
  function Truncate(s: string): (r: string)
    ensures |r| <= DescriptionLimit + |Ellipsis|
    ensures |r| >= |Ellipsis| && r[|r| - |Ellipsis|..] == Ellipsis
    ensures var body := r[..|r| - |Ellipsis|]; |body| <= |s| && body == s[..|body|]
    ensures |s| <= DescriptionLimit ==> r == s + Ellipsis
    ensures |s| >= DescriptionLimit ==> |r| == DescriptionLimit + |Ellipsis|
  {
    Seqs.SliceTo(s, DescriptionLimit) + Ellipsis
  }

  /** `job.get("job_apply_link") or job.get("job_google_link")`: the direct
      link when it is non-empty, otherwise whatever the search-engine link
      holds. */
  function ApplyLink(job: RawJob): (r: Option<string>)
    ensures job.applyLink.Truthy() ==> r == Some(job.applyLink.s)
    ensures !job.applyLink.Truthy() ==> r == job.googleLink.Get()
    ensures (job.applyLink.Truthy() || job.googleLink.Truthy()) <==> (r.Some? && r.value != "")
  {
    if job.applyLink.Truthy() then job.applyLink.Get() else job.googleLink.Get()
  }

  /** `simplify(job)`; slicing a null description raises TypeError. */
  function Simplify(job: RawJob): (r: Result<SimpleJob, Error>)
    ensures r.Failure? <==> job.description.Null?
    ensures r.Success? ==>
      && r.value.title == job.title.Get()
      && r.value.company == job.employer.Get()
      && r.value.location == job.location.Get()
      && r.value.publisher == job.publisher.Get()
      && r.value.apply == ApplyLink(job)
      && r.value.posted == job.postedAt.Get()
      && r.value.description == Truncate(job.description.OrEmpty())
  {
    match job.description
    case Null => Failure(NullText("job_description"))
    case _ =>
      Success(SimpleJob(
        job.title.Get(), job.employer.Get(), job.location.Get(), job.publisher.Get(),
        ApplyLink(job), job.postedAt.Get(), Truncate(job.description.OrEmpty())))
  }

  /** What a simplified record promises: its description ends in "...",
      has at most 203 characters and starts with a prefix of the original
      description; its apply link is non-empty iff either link field is;
      and title, company, location, publisher and posting time are the
      values `get` returns. */
  lemma SimplifyShape(job: RawJob)
    requires Simplify(job).Success?
    ensures var out := Simplify(job).value;
      var d := out.description;
      && 3 <= |d| <= 203
      && d[|d| - 3..] == "..."
      && |d| - 3 <= |job.description.OrEmpty()|
      && d[..|d| - 3] == job.description.OrEmpty()[..|d| - 3]
      && ((job.applyLink.Truthy() || job.googleLink.Truthy()) <==> (out.apply.Some? && out.apply.value != ""))
      && out.title == job.title.Get()
      && out.company == job.employer.Get()
      && out.location == job.location.Get()
      && out.publisher == job.publisher.Get()
      && out.posted == job.postedAt.Get()
  {
  }

  /** `[simplify(j) for j in jobs]`, left to right. */
  function SimplifyAll(jobs: seq<RawJob>): (r: Result<seq<SimpleJob>, Error>)
    ensures r.Failure? <==> exists i :: 0 <= i < |jobs| && jobs[i].description.Null?
    ensures r.Success? ==>
      |r.value| == |jobs| && forall i :: 0 <= i < |jobs| ==> Simplify(jobs[i]) == Success(r.value[i])
  {
    MapResult(Simplify, jobs)
  }
}
