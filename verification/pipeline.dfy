/** `collect_jobs` after fetching: deduplicate, filter, simplify, limit. */
module Pipeline {
  import opened Wrappers
  import opened Records
  import opened Dedup
  import opened Filters
  import opened Projection
  import Seqs

  /** The body of `collect_jobs` from the deduplication on, over the
      records all searches returned, in the order they arrived. */
  function CollectJobs(cfg: Config, now: int, fromIso: string -> Option<int>, raw: seq<RawJob>): (r: Result<seq<SimpleJob>, Error>)
    ensures r.Success? ==> |r.value| <= |raw|
    ensures r.Success? && 0 <= cfg.maxJobs ==> |r.value| <= cfg.maxJobs
  {
    var jobs := Deduplicate(raw);
    var filtered :- FilterChain(cfg, now, fromIso, jobs);
    var simplified :- SimplifyAll(filtered);
    Success(Seqs.SliceTo(simplified, cfg.maxJobs))
  }

  /** Every record the filter chain keeps can be simplified: the keyword
      test has already raised on a null description. */
  lemma FilteredSimplifies(cfg: Config, now: int, fromIso: string -> Option<int>, jobs: seq<RawJob>)
    requires FilterChain(cfg, now, fromIso, jobs).Success?
    ensures SimplifyAll(FilterChain(cfg, now, fromIso, jobs).value).Success?
  {
    FilterChainSelects(cfg, now, fromIso, jobs);
    var f := FilterChain(cfg, now, fromIso, jobs).value;
    forall i | 0 <= i < |f|
      ensures !f[i].description.Null?
    {
      assert f[i] in f;
    }
  }

  /** The run raises exactly when a deduplicated record is recent and has a
      null title or description. */
  lemma CollectJobsFails(cfg: Config, now: int, fromIso: string -> Option<int>, raw: seq<RawJob>)
    ensures var jobs := Deduplicate(raw);
      CollectJobs(cfg, now, fromIso, raw).Failure? <==>
        exists i :: 0 <= i < |jobs| &&
          IsRecent(jobs[i], now, cfg.maxJobAgeHours, fromIso) && (jobs[i].title.Null? || jobs[i].description.Null?)
  {
    var jobs := Deduplicate(raw);
    FilterChainSpec(cfg, now, fromIso, jobs);
    if FilterChain(cfg, now, fromIso, jobs).Success? {
      FilteredSimplifies(cfg, now, fromIso, jobs);
    }
  }

  /** A run that does not raise returns the first `maxJobs` of the
      simplified filtered records, in order (Python slice semantics for a
      negative `maxJobs`), and every description ends in the ellipsis and
      is at most 203 characters. */
  lemma CollectJobsLimit(cfg: Config, now: int, fromIso: string -> Option<int>, raw: seq<RawJob>)
    requires CollectJobs(cfg, now, fromIso, raw).Success?
    ensures FilterChain(cfg, now, fromIso, Deduplicate(raw)).Success?
    ensures var f := FilterChain(cfg, now, fromIso, Deduplicate(raw)).value;
      var r := CollectJobs(cfg, now, fromIso, raw).value;
      && (0 <= cfg.maxJobs ==> |r| == if cfg.maxJobs < |f| then cfg.maxJobs else |f|)
      && (cfg.maxJobs < 0 ==> |r| == if |f| + cfg.maxJobs > 0 then |f| + cfg.maxJobs else 0)
      && (forall i :: 0 <= i < |r| ==> Simplify(f[i]) == Success(r[i]))
      && (forall i :: 0 <= i < |r| ==>
            |r[i].description| <= 203 && r[i].description[|r[i].description| - 3..] == "...")
  {
    var jobs := Deduplicate(raw);
    assert FilterChain(cfg, now, fromIso, jobs).Success?;
    var f := FilterChain(cfg, now, fromIso, jobs).value;
    assert SimplifyAll(f).Success?;
    var simplified := SimplifyAll(f).value;
    assert CollectJobs(cfg, now, fromIso, raw).value == Seqs.SliceTo(simplified, cfg.maxJobs);
  }

  /** `job` is the simplification of the last raw record for one of the
      distinct keys, and that record passes all three filters. */
  ghost predicate ComesFrom(cfg: Config, now: int, fromIso: string -> Option<int>, raw: seq<RawJob>, job: SimpleJob)
  {
    exists a :: 0 <= a < |DedupKeys(raw)| && LastOf(cfg, now, fromIso, raw, DedupKeys(raw)[a], job)
  }

  ghost predicate LastOf(cfg: Config, now: int, fromIso: string -> Option<int>, raw: seq<RawJob>, k: Key, job: SimpleJob)
  {
    var last := LastIndex(raw, k, |raw|);
    && 0 <= last
    && Simplify(raw[last]) == Success(job)
    && Admits(cfg, now, fromIso, raw[last]) == Success(true)
  }

  /** The `i`-th job of the result comes from the last record of a
      distinct key that passes the filters. */
  lemma ProvenanceAt(cfg: Config, now: int, fromIso: string -> Option<int>, raw: seq<RawJob>, i: nat)
    requires CollectJobs(cfg, now, fromIso, raw).Success?
    requires i < |CollectJobs(cfg, now, fromIso, raw).value|
    ensures ComesFrom(cfg, now, fromIso, raw, CollectJobs(cfg, now, fromIso, raw).value[i])
  {
    var jobs := Deduplicate(raw);
    CollectJobsLimit(cfg, now, fromIso, raw);
    FilterChainSpec(cfg, now, fromIso, jobs);
    var f := FilterChain(cfg, now, fromIso, jobs).value;
    var job := CollectJobs(cfg, now, fromIso, raw).value[i];
    assert Simplify(f[i]) == Success(job);
    assert f[i] in Seqs.Filter(jobs, Admitted(cfg, now, fromIso));
    var a :| 0 <= a < |jobs| && jobs[a] == f[i];
    DeduplicateEntry(raw, a);
    assert LastOf(cfg, now, fromIso, raw, DedupKeys(raw)[a], job);
  }

  /** Every job of the result comes from the last record of a distinct key
      that passes the filters. */
  lemma CollectJobsProvenance(cfg: Config, now: int, fromIso: string -> Option<int>, raw: seq<RawJob>)
    requires CollectJobs(cfg, now, fromIso, raw).Success?
    ensures forall job :: job in CollectJobs(cfg, now, fromIso, raw).value ==> ComesFrom(cfg, now, fromIso, raw, job)
  {
    var r := CollectJobs(cfg, now, fromIso, raw).value;
    forall job | job in r
      ensures ComesFrom(cfg, now, fromIso, raw, job)
    {
      var i :| 0 <= i < |r| && r[i] == job;
      ProvenanceAt(cfg, now, fromIso, raw, i);
    }
  }
}
