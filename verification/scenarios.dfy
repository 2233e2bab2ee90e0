/** Concrete runs of the pipeline with job.py's default settings. */
module Scenarios {
  import opened Wrappers
  import opened Records
  import opened Text
  import opened Dedup
  import opened Filters
  import opened Projection
  import opened Pipeline

  /** A record carrying only an id, a title, an employer and a posting time. */
  function Posting(id: Field, employer: string, stamp: string): RawJob
  {
    RawJob(id, Text("Senior DevOps Engineer"), Missing, Text(employer), Missing, Missing, Missing, Missing, Text(stamp))
  }

  /** "Senior DevOps Engineer" matches the keyword "devops" once lower-cased. */
  lemma DevOpsTitleMatches(job: RawJob)
    requires job.title == Text("Senior DevOps Engineer") && job.description == Missing
    ensures MatchesKeywords(job, Defaults.mustKeywords) == Success(true)
  {
    var text := SearchText(job);
    assert job.title.OrEmpty() + " " + job.description.OrEmpty() == "Senior DevOps Engineer ";
    assert text == Lower("Senior DevOps Engineer ");
    assert text[7..13] == "devops";
    assert OccursAt(Defaults.mustKeywords[0], text, 7);
  }

  /** A lone record without an id passes deduplication unchanged. */
  lemma DedupSingle(job: RawJob)
    requires !job.jobId.Truthy()
    ensures Deduplicate([job]) == [job]
  {
    assert KeyAt([job], 0) == ByIdentity(0);
    assert Collect([job], 1) == OrderedMap([ByIdentity(0)], map[ByIdentity(0) := job]);
  }

  /** Of two records with the same id, only the later one survives. */
  lemma DedupSameId(first: RawJob, later: RawJob)
    requires first.jobId.Truthy() && later.jobId == first.jobId
    ensures Deduplicate([first, later]) == [later]
  {
    var k := ById(first.jobId.s);
    assert KeyAt([first, later], 0) == k && KeyAt([first, later], 1) == k;
    assert Collect([first, later], 1) == OrderedMap([k], map[k := first]);
    assert Collect([first, later], 2) == OrderedMap([k], map[k := later]);
  }

  /** The chain over one record keeps it exactly when it is admitted. */
  lemma ChainSingle(cfg: Config, now: int, fromIso: string -> Option<int>, job: RawJob)
    requires Admits(cfg, now, fromIso, job).Success?
    ensures FilterChain(cfg, now, fromIso, [job]) ==
      Success(if Admits(cfg, now, fromIso, job).value then [job] else [])
  {
    assert [job][1..] == [];
    assert FilterChain(cfg, now, fromIso, []) == Success([]);
    var keep := Admits(cfg, now, fromIso, job).value;
    assert FilterChain(cfg, now, fromIso, [job]) == Success(if keep then [job] + [] else []);
    assert [job] + [] == [job];
  }

  /** The posting in these scenarios, once simplified. */
  function Reported(employer: string, stamp: string): SimpleJob
  {
    SimpleJob(Some("Senior DevOps Engineer"), Some(employer), None, None, None, Some(stamp), "...")
  }

  /** Simplifying and limiting a one-element list. */
  lemma SimplifySingle(employer: string, stamp: string)
    ensures SimplifyAll([Posting(Missing, employer, stamp)]) == Success([Reported(employer, stamp)])
    ensures SimplifyAll([Posting(Text("abc"), employer, stamp)]) == Success([Reported(employer, stamp)])
  {
    assert Truncate("") == "...";
    forall id | id == Missing || id == Text("abc")
      ensures SimplifyAll([Posting(id, employer, stamp)]) == Success([Reported(employer, stamp)])
    {
      var job := Posting(id, employer, stamp);
      assert ApplyLink(job) == None;
      assert Simplify(job) == Success(Reported(employer, stamp));
      assert [job][1..] == [];
      assert SimplifyAll([]) == Success([]);
      assert SimplifyAll([job]) == Success([Reported(employer, stamp)] + []);
      assert [Reported(employer, stamp)] + [] == [Reported(employer, stamp)];
    }
  }

  /** A devops posting two hours old, stamped in the API's "Z" form,
      survives every filter and is reported with its stamp as given. */
  lemma RecentDevOpsJobReported(now: int, t: string, fromIso: string -> Option<int>)
    requires 'Z' !in t
    requires fromIso(t + "+00:00") == Some(now - 2 * MicrosPerHour)
    ensures CollectJobs(Defaults, now, fromIso, [Posting(Missing, "Acme", t + "Z")]) ==
      Success([Reported("Acme", t + "Z")])
  {
    var job := Posting(Missing, "Acme", t + "Z");
    ParseUtcZulu(t, fromIso);
    DedupSingle(job);
    DevOpsTitleMatches(job);
    assert IsRecent(job, now, 24, fromIso);
    assert Admits(Defaults, now, fromIso, job) == Success(true);
    ChainSingle(Defaults, now, fromIso, job);
    SimplifySingle("Acme", t + "Z");
  }

  /** The same posting thirty hours old falls outside the 24-hour window. */
  lemma StaleJobExcluded(now: int, t: string, fromIso: string -> Option<int>)
    requires 'Z' !in t
    requires fromIso(t + "+00:00") == Some(now - 30 * MicrosPerHour)
    ensures CollectJobs(Defaults, now, fromIso, [Posting(Missing, "Acme", t + "Z")]) == Success([])
  {
    var job := Posting(Missing, "Acme", t + "Z");
    ParseUtcZulu(t, fromIso);
    DedupSingle(job);
    assert !IsRecent(job, now, 24, fromIso);
    ChainSingle(Defaults, now, fromIso, job);
  }

  /** Two records with one `job_id` collapse into one job carrying the
      second record's employer. */
  lemma SameIdKeepsLater(now: int, stamp: string, fromIso: string -> Option<int>)
    requires stamp != "" && 'Z' !in stamp
    requires fromIso(stamp) == Some(now - 2 * MicrosPerHour)
    ensures var raw := [Posting(Text("abc"), "Acme", stamp), Posting(Text("abc"), "Beta", stamp)];
      CollectJobs(Defaults, now, fromIso, raw) == Success([Reported("Beta", stamp)])
  {
    var later := Posting(Text("abc"), "Beta", stamp);
    DedupSameId(Posting(Text("abc"), "Acme", stamp), later);
    DevOpsTitleMatches(later);
    assert IsRecent(later, now, 24, fromIso);
    ChainSingle(Defaults, now, fromIso, later);
    SimplifySingle("Beta", stamp);
  }

  /** Deduplication runs before filtering: when the later record for an id
      fails a filter, the id disappears although the earlier one would pass. */
  lemma StaleLaterRecordHidesEarlier(now: int, recent: string, stale: string, fromIso: string -> Option<int>)
    requires recent != "" && 'Z' !in recent && stale != "" && 'Z' !in stale
    requires fromIso(recent) == Some(now - 2 * MicrosPerHour)
    requires fromIso(stale) == Some(now - 30 * MicrosPerHour)
    ensures var raw := [Posting(Text("abc"), "Acme", recent), Posting(Text("abc"), "Acme", stale)];
      CollectJobs(Defaults, now, fromIso, raw) == Success([])
  {
    var later := Posting(Text("abc"), "Acme", stale);
    DedupSameId(Posting(Text("abc"), "Acme", recent), later);
    assert !IsRecent(later, now, 24, fromIso);
    ChainSingle(Defaults, now, fromIso, later);
  }

  /** A record with a null title and no posting time is dropped quietly by
      the shipped chain, while the reversed condition would raise on it. */
  lemma NullTitleUndatedRecordSkipped(now: int, fromIso: string -> Option<int>)
    ensures var job := RawJob(Missing, Null, Missing, Missing, Missing, Missing, Missing, Missing, Missing);
      && FilterChain(Defaults, now, fromIso, [job]) == Success([])
      && AdmitsReordered(Defaults, now, fromIso, job).Failure?
  {
    var job := RawJob(Missing, Null, Missing, Missing, Missing, Missing, Missing, Missing, Missing);
    assert !IsRecent(job, now, 24, fromIso);
    EmptyExclusionAdmitsAll(job);
    ReorderedConditionRaises(Defaults, now, fromIso, job);
    ChainSingle(Defaults, now, fromIso, job);
  }
}
