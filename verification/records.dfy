/** The shapes of data the pipeline in job.py handles: raw API records,
    the run's configuration and the one error the pipeline can raise. */
module Records {
  import opened Wrappers

  /** One string-valued JSON field as `dict.get` sees it: absent from the
      record, present with a JSON `null`, or present with a string. */
  datatype Field = Missing | Null | Text(s: string) {

    /** `job.get(name)`: both an absent key and a null give `None`. */
    function Get(): Option<string> {
      if Text? then Some(s) else None
    }

    /** Python truthiness of the value: `None` and `""` are falsy. */
    predicate Truthy() {
      Text? && s != ""
    }

    /** The text, with `""` for a field that holds none. */
    function OrEmpty(): string {
      if Text? then s else ""
    }
  }

  /** One item of the search API's `data` list, restricted to the keys
      job.py reads. */
  datatype RawJob = RawJob(
    jobId: Field,         // job_id
    title: Field,         // job_title
    description: Field,   // job_description
    employer: Field,      // employer_name
    location: Field,      // job_location
    publisher: Field,     // job_publisher
    applyLink: Field,     // job_apply_link
    googleLink: Field,    // job_google_link
    postedAt: Field)      // job_posted_at_datetime_utc

  /** A TypeError raised by string concatenation or slicing on a JSON null,
      naming the offending key. It aborts the whole run. */
  datatype Error = NullText(key: string)

  /** The run's settings, which job.py keeps as module-level constants. */
  datatype Config = Config(
    maxJobAgeHours: int,             // MAX_JOB_AGE_HOURS
    maxJobs: int,                    // MAX_JOBS
    mustKeywords: seq<string>,       // MUST_KEYWORDS
    excludedPublishers: seq<string>) // EXCLUDED_PUBLISHERS

  /** The values job.py ships with. */
  const Defaults: Config :=
    Config(24, 50, ["devops", "sre", "kubernetes", "aws", "docker", "terraform"], [])
}
