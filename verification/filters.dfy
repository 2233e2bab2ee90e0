/** The three predicates of the filter chain in job.py (`is_recent`,
    `matches_keywords`, `allowed_publisher`) and the list comprehension
    that applies them. */
module Filters {
  import opened Wrappers
  import opened Records
  import opened Text
  import Seqs

  /** `timedelta(hours=1)` in microseconds, the resolution of `datetime`. */
  const MicrosPerHour: int := 3_600_000_000

  /** `parse_utc`: a missing, null or empty timestamp gives `None`; any other
      string has every "Z" replaced by "+00:00" and goes to `fromIso`, which
      stands for `datetime.fromisoformat` with the bare `except` around it
      (`None` for a string it rejects, otherwise the instant in microseconds
      since the epoch). */
  function ParseUtc(dt: Field, fromIso: string -> Option<int>): (r: Option<int>)
    ensures r.Some? ==> dt.Truthy()
    ensures dt.Truthy() && 'Z' !in dt.s ==> r == fromIso(dt.s)
  {
    if !dt.Truthy() then None
    else fromIso(ReplaceChar(dt.s, 'Z', "+00:00"))
  }

  /** The API's usual form ends in "Z"; it reaches the ISO parser with
      that "Z" spelled as the offset "+00:00". */
  lemma ParseUtcZulu(t: string, fromIso: string -> Option<int>)
    requires 'Z' !in t
    ensures ParseUtc(Text(t + "Z"), fromIso) == fromIso(t + "+00:00")
  {
    ReplaceCharConcat(t, "Z", 'Z', "+00:00");
    ReplaceCharSingle('Z', "+00:00");
  }

  /** `is_recent`: the posting time parses and lies at most `maxAgeHours`
      before `now`. */
  function IsRecent(job: RawJob, now: int, maxAgeHours: int, fromIso: string -> Option<int>): (r: bool)
    ensures r ==> job.postedAt.Truthy()
    ensures ParseUtc(job.postedAt, fromIso).None? ==> !r
  {
    match ParseUtc(job.postedAt, fromIso)
    case None => false
    case Some(posted) => now - posted <= maxAgeHours * MicrosPerHour
  }

  /** With a parsed posting time, recency is exactly the age window; a
      posting dated in the future is always recent for a non-negative window. */
  lemma RecentWindow(job: RawJob, now: int, maxAgeHours: int, fromIso: string -> Option<int>, posted: int)
    requires ParseUtc(job.postedAt, fromIso) == Some(posted)
    ensures IsRecent(job, now, maxAgeHours, fromIso) <==> now - posted <= maxAgeHours * MicrosPerHour
    ensures 0 <= maxAgeHours && now <= posted ==> IsRecent(job, now, maxAgeHours, fromIso)
  {
  }

  /** A job recent at some moment stays recent at any earlier moment and
      under any wider window. */
  lemma RecentMonotone(job: RawJob, now: int, now': int, hours: int, hours': int, fromIso: string -> Option<int>)
    requires now' <= now && hours <= hours'
    requires IsRecent(job, now, hours, fromIso)
    ensures IsRecent(job, now', hours', fromIso)
  {
    assert hours * MicrosPerHour <= hours' * MicrosPerHour;
  }

  /** `job.get(key, "")` followed by string concatenation: an absent key is
      `""`, a JSON null raises TypeError. */
  function TextOrEmpty(f: Field, key: string): (r: Result<string, Error>)
    ensures r.Failure? <==> f.Null?
    ensures r.Success? ==> r.value == f.OrEmpty()
  {
    match f
    case Missing => Success("")
    case Null => Failure(NullText(key))
    case Text(s) => Success(s)
  }

  /** The text the keywords are searched in. */
  function SearchText(job: RawJob): string
  {
    Lower(job.title.OrEmpty() + " " + job.description.OrEmpty())
  }

  /** `matches_keywords`: some keyword is a substring of the lower-cased
      title, a space and the description. It raises when the title or the
      description is null. */
  function MatchesKeywords(job: RawJob, keywords: seq<string>): (r: Result<bool, Error>)
    ensures r.Failure? <==> job.title.Null? || job.description.Null?
    ensures r.Success? ==>
      (r.value <==> exists i :: 0 <= i < |keywords| && Occurs(keywords[i], SearchText(job)))
  {
    var title :- TextOrEmpty(job.title, "job_title");
    var description :- TextOrEmpty(job.description, "job_description");
    Success(AnyOccurs(keywords, Lower(title + " " + description)))
  }

  /** `allowed_publisher`: the publisher is none of the excluded names; a
      missing or null publisher (`None`) is never excluded. */
  function AllowedPublisher(job: RawJob, excluded: seq<string>): (r: bool)
    ensures r <==> forall i :: 0 <= i < |excluded| ==> job.publisher != Text(excluded[i])
  {
    match job.publisher
    case Text(p) => p !in excluded
    case _ => true
  }

  /** With an empty exclusion list, as job.py ships, every publisher is allowed. */
  lemma EmptyExclusionAdmitsAll(job: RawJob)
    ensures AllowedPublisher(job, [])
    ensures Defaults.excludedPublishers == []
  {
  }

  /** The condition of the comprehension, `is_recent(j) and
      matches_keywords(j) and allowed_publisher(j)`, short-circuiting left
      to right: it raises only when the job is recent and its title or
      description is null. */
  function Admits(cfg: Config, now: int, fromIso: string -> Option<int>, job: RawJob): (r: Result<bool, Error>)
    ensures r.Failure? <==>
      IsRecent(job, now, cfg.maxJobAgeHours, fromIso) && (job.title.Null? || job.description.Null?)
    ensures r == Success(true) <==>
      && IsRecent(job, now, cfg.maxJobAgeHours, fromIso)
      && MatchesKeywords(job, cfg.mustKeywords) == Success(true)
      && AllowedPublisher(job, cfg.excludedPublishers)
  {
    if !IsRecent(job, now, cfg.maxJobAgeHours, fromIso) then Success(false)
    else
      var matches :- MatchesKeywords(job, cfg.mustKeywords);
      Success(matches && AllowedPublisher(job, cfg.excludedPublishers))
  }

  /** An admitted job has text in its title and description fields, never null. */
  lemma AdmittedHasNoNullText(cfg: Config, now: int, fromIso: string -> Option<int>, job: RawJob)
    requires Admits(cfg, now, fromIso, job) == Success(true)
    ensures !job.title.Null? && !job.description.Null?
  {
  }

  /** The comprehension `[j for j in jobs if ...]`, evaluated left to right;
      the first TypeError aborts it. */
  function FilterChain(cfg: Config, now: int, fromIso: string -> Option<int>, jobs: seq<RawJob>): (r: Result<seq<RawJob>, Error>)
    ensures r.Success? ==> |r.value| <= |jobs| && forall x :: x in r.value ==> x in jobs
  {
    if |jobs| == 0 then Success([])
    else
      var keep :- Admits(cfg, now, fromIso, jobs[0]);
      var rest :- FilterChain(cfg, now, fromIso, jobs[1..]);
      Success(if keep then [jobs[0]] + rest else rest)
  }

  /** The predicate the chain selects by, once nothing raises. */
  function Admitted(cfg: Config, now: int, fromIso: string -> Option<int>): RawJob -> bool
  {
    job => Admits(cfg, now, fromIso, job) == Success(true)
  }

  /** The chain raises exactly when some job makes its condition raise;
      otherwise it is the plain filter by the admitting condition. */
  lemma {:induction false} FilterChainSpec(cfg: Config, now: int, fromIso: string -> Option<int>, jobs: seq<RawJob>)
    ensures FilterChain(cfg, now, fromIso, jobs).Failure? <==>
      exists i :: 0 <= i < |jobs| && Admits(cfg, now, fromIso, jobs[i]).Failure?
    ensures FilterChain(cfg, now, fromIso, jobs).Success? ==>
      FilterChain(cfg, now, fromIso, jobs).value == Seqs.Filter(jobs, Admitted(cfg, now, fromIso))
  {
    if |jobs| > 0 {
      FilterChainSpec(cfg, now, fromIso, jobs[1..]);
      assert forall i :: 1 <= i < |jobs| ==> jobs[i] == jobs[1..][i - 1];
    }
  }

  /** The filtered list is an order-preserving subsequence of the input,
      every element passes all three predicates, no job that passes them is
      dropped, and it has as many elements as there are passing jobs. */
  lemma FilterChainSelects(cfg: Config, now: int, fromIso: string -> Option<int>, jobs: seq<RawJob>)
    requires FilterChain(cfg, now, fromIso, jobs).Success?
    ensures var r := FilterChain(cfg, now, fromIso, jobs).value;
      && Seqs.IsSubseq(r, jobs)
      && (forall x :: x in r ==>
            && IsRecent(x, now, cfg.maxJobAgeHours, fromIso)
            && MatchesKeywords(x, cfg.mustKeywords) == Success(true)
            && AllowedPublisher(x, cfg.excludedPublishers))
      && (forall i :: 0 <= i < |jobs| && Admits(cfg, now, fromIso, jobs[i]) == Success(true) ==> jobs[i] in r)
      && |r| == Seqs.CountWhere(jobs, Admitted(cfg, now, fromIso))
  {
    FilterChainSpec(cfg, now, fromIso, jobs);
    Seqs.FilterSelects(jobs, Admitted(cfg, now, fromIso));
  }

  /** Running the chain again on its own output returns it unchanged. */
  lemma FilterChainIdempotent(cfg: Config, now: int, fromIso: string -> Option<int>, jobs: seq<RawJob>)
    requires FilterChain(cfg, now, fromIso, jobs).Success?
    ensures var r := FilterChain(cfg, now, fromIso, jobs).value;
      FilterChain(cfg, now, fromIso, r) == Success(r)
  {
    var p := Admitted(cfg, now, fromIso);
    FilterChainSpec(cfg, now, fromIso, jobs);
    var r := FilterChain(cfg, now, fromIso, jobs).value;
    FilterChainSpec(cfg, now, fromIso, r);
    Seqs.FilterIdempotent(jobs, p);
  }

  /** When the chain does not raise, filtering by the publisher first, then
      by keywords (a raising keyword test counted as a rejection), then by
      recency gives the same list. The code's own order is not irrelevant:
      see `AdmitsReordered` and `ReorderedConditionRaises`. */
  lemma FilterChainOrderIrrelevant(cfg: Config, now: int, fromIso: string -> Option<int>, jobs: seq<RawJob>)
    requires FilterChain(cfg, now, fromIso, jobs).Success?
    ensures FilterChain(cfg, now, fromIso, jobs).value ==
      Seqs.Filter(
        Seqs.Filter(
          Seqs.Filter(jobs, job => AllowedPublisher(job, cfg.excludedPublishers)),
          job => MatchesKeywords(job, cfg.mustKeywords) == Success(true)),
        job => IsRecent(job, now, cfg.maxJobAgeHours, fromIso))
  {
    var pub := job => AllowedPublisher(job, cfg.excludedPublishers);
    var kw := job => MatchesKeywords(job, cfg.mustKeywords) == Success(true);
    var rec := job => IsRecent(job, now, cfg.maxJobAgeHours, fromIso);
    FilterChainSpec(cfg, now, fromIso, jobs);
    Seqs.FilterFilter(jobs, pub, kw);
    Seqs.FilterFilter(jobs, x => pub(x) && kw(x), rec);
    Seqs.FilterExtensional(jobs, x => (pub(x) && kw(x)) && rec(x), Admitted(cfg, now, fromIso));
  }

  /** The condition with its conjuncts reversed, `allowed_publisher(j) and
      matches_keywords(j) and is_recent(j)`, short-circuiting left to right:
      it raises whenever the publisher is allowed and a text field is null,
      whether or not the job is recent. */
  function AdmitsReordered(cfg: Config, now: int, fromIso: string -> Option<int>, job: RawJob): (r: Result<bool, Error>)
    ensures r.Failure? <==>
      AllowedPublisher(job, cfg.excludedPublishers) && (job.title.Null? || job.description.Null?)
    ensures r == Success(true) <==> Admits(cfg, now, fromIso, job) == Success(true)
  {
    if !AllowedPublisher(job, cfg.excludedPublishers) then Success(false)
    else
      var matches :- MatchesKeywords(job, cfg.mustKeywords);
      Success(matches && IsRecent(job, now, cfg.maxJobAgeHours, fromIso))
  }

  /** The order of the conjuncts at job.py:118-120 matters: a job that is
      not recent but has a null title is rejected quietly by the code's
      order, while the reversed order raises on it. */
  lemma ReorderedConditionRaises(cfg: Config, now: int, fromIso: string -> Option<int>, job: RawJob)
    requires !IsRecent(job, now, cfg.maxJobAgeHours, fromIso)
    requires job.title.Null? && AllowedPublisher(job, cfg.excludedPublishers)
    ensures Admits(cfg, now, fromIso, job) == Success(false)
    ensures AdmitsReordered(cfg, now, fromIso, job).Failure?
  {
  }
}
