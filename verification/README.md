# Job collect-and-filter pipeline, modelled in Dafny

This project models the core of `job.py`, a script that collects DevOps/SRE job
postings from a job-search API and turns them into a digest. The part modelled is
everything `collect_jobs` does after the HTTP fetches:

1. **Deduplication.** Every raw record goes into a Python dict. Its key is its
   `job_id`, or the object's own identity when the id is missing, null or empty.
   A later record with the same key overwrites the earlier value. The key keeps
   the position where it was first inserted.
2. **Filter chain.** A list comprehension keeps the records for which
   `is_recent`, `matches_keywords` and `allowed_publisher` all hold.
3. **Projection.** `simplify` keeps the printed fields, prefers the direct apply
   link over the search-engine link, and cuts the description to 200 characters
   plus `"..."`.
4. **Limit.** The first `MAX_JOBS` results are kept.

`generate_outreach` is modelled too. It pairs every job with a templated message.

## Layout

| file | module | what it holds |
|---|---|---|
| wrappers.dfy | `Wrappers` | `Option`, `Result`, and mapping a function that may raise |
| seqs.dfy | `Seqs` | list-comprehension filtering, Python's `s[:n]` slice, subsequences |
| text.dfy | `Text` | `lower()`, the substring test `k in text`, `str.replace` of one character |
| records.dfy | `Records` | raw records, JSON fields, the run's configuration, the TypeError |
| dedup.dfy | `Dedup` | the insertion-ordered dict and the deduplication loop |
| filters.dfy | `Filters` | `parse_utc`, the three predicates and the filter chain |
| simplify.dfy | `Projection` | `simplify` and the description cut |
| pipeline.dfy | `Pipeline` | `collect_jobs` from deduplication to the limit |
| outreach.dfy | `Outreach` | `generate_outreach` |
| scenarios.dfy | `Scenarios` | concrete runs with the shipped settings |

## Modelling choices

- A JSON field is `Missing`, `Null` or `Text(s)`. The difference matters in
  Python: `job.get("job_title", "")` gives `""` for an absent key but `None` for a
  JSON null. Concatenating `None` raises `TypeError`, which aborts the whole run.
  Every stage that can raise returns a `Result`. `CollectJobs` fails exactly when
  some deduplicated record is recent and has a null title or description.
  `simplify` itself never raises on a record that got through the filters
  (`Pipeline.FilteredSimplifies`).
- The identity fallback `id(j)` is the record's position in the input. Distinct
  live objects never share an `id`. A string id never equals an integer identity.
- Timestamps are integers counting microseconds, the resolution of `datetime`.
  `now` is a parameter. `datetime.fromisoformat`, wrapped in the bare `except`, is
  the parameter `fromIso: string -> Option<int>`.
- The module-level constants are a `Config` value. `Records.Defaults` carries the
  values the script ships with: 24 hours, 50 jobs, six keywords and no excluded
  publishers.
- `MAX_JOBS` is an `int`, and `Seqs.SliceTo` follows Python's `s[:n]`, including a
  negative `n`.
- Behaviours of the code worth noting:
  - Records are deduplicated before they are filtered. If the last record for an
    id fails a filter, the id vanishes even when an earlier record would have
    passed (`Scenarios.StaleLaterRecordHidesEarlier`).
  - A record without a truthy `job_id` is keyed by its own object identity, so
    it never collides with any other record (`Dedup.NoIdNeverCollides`).
  - A missing company, location, publisher or link stays `None` in the output.
  - A null title or description on a recent record raises `TypeError`, which
    ends the run (`Pipeline.CollectJobsFails`).

## Model

| member | source | states |
|---|---|---|
| Dedup.KeyAt | job.py:111 | the key is the id string exactly when `job_id` is truthy; otherwise it is the record's own identity |
| Dedup.SameKey | job.py:111-112 | two records share a dict slot iff they are the same record or both carry the same truthy `job_id` |
| Dedup.OrderedMap.Put | job.py:112 | after `unique[key] = j` the key maps to `j`; the key list grows by one exactly when the key is new |
| Dedup.PutSpec | job.py:112 | the assignment keeps the dict well formed, leaves every other key and its value alone, keeps existing keys in place and appends a new key at the end |
| Dedup.OrderedMap.Values | job.py:114 | `values()` lists one value per key, in key order |
| Dedup.CollectValid | job.py:109-112 | after any prefix of the loop the key list has no repeats, matches the dict's key set, and is no longer than the prefix |
| Dedup.CollectEntry | job.py:110-112 | a key is in the dict iff some record so far had it, and its value is the last such record |
| Dedup.CollectFirstSeenOrder | job.py:109-112 | keys stand in the dict in order of their first occurrence in the input |
| Dedup.Deduplicate | job.py:109-114 | the output has one record per distinct key and never more records than the input |
| Dedup.DeduplicateKeys | job.py:109-114 | the output keys have no repeats, cover every input record's key, and each belongs to some input record |
| Dedup.DeduplicateEntry | job.py:112-114 | the a-th deduplicated record is the last input record with the a-th key |
| Dedup.DeduplicateLastWins | job.py:109-114 | every output record is the last input record carrying its key |
| Dedup.DeduplicateFirstSeenOrder | job.py:109-114 | output records stand in order of their key's first occurrence in the input |
| Dedup.DeduplicateCount | job.py:109-114 | the output length equals the number of distinct keys among the input records |
| Dedup.NoIdNeverCollides | job.py:111-114 | a record without an id appears in the output unchanged, under its own identity |
| Text.Lower | job.py:78 | lower-casing keeps the length, leaves no upper-case letter, keeps every other character, and maps A-Z to the matching a-z |
| Text.LowerConcat | job.py:78 | lower-casing a concatenation lower-cases each part |
| Text.LowerIsLower | job.py:78 | lower-cased text has no upper-case letter, and lower-casing twice changes nothing |
| Text.Contains | job.py:79 | the scan answers true iff the keyword occurs as a contiguous substring |
| Text.AnyOccurs | job.py:79 | `any(...)` is true iff some keyword occurs in the text |
| Text.UpperKeywordNeverOccurs | job.py:78-79 | a keyword with an upper-case letter never matches lower-cased text |
| Text.ReplaceChar | job.py:65 | replacing "Z" by "+00:00" leaves no "Z" and leaves a string without "Z" unchanged |
| Text.ReplaceCharConcat | job.py:65 | replacing works piece by piece over a concatenation |
| Text.ReplaceCharSingle | job.py:65 | a lone "Z" becomes "+00:00" |
| Filters.ParseUtc | job.py:61-67 | a missing, null or empty timestamp gives none; a string without "Z" goes to the ISO parser as is |
| Filters.ParseUtcZulu | job.py:65 | a timestamp ending in "Z" reaches the ISO parser with "+00:00" in place of the "Z" |
| Filters.IsRecent | job.py:70-74 | a record with no usable timestamp, or one the ISO parser rejects, is never recent |
| Filters.RecentWindow | job.py:70-74 | with a parsed time, recent iff now minus posted is at most the window; for a non-negative window, future-dated postings are recent |
| Filters.RecentMonotone | job.py:74 | recency is kept at any earlier moment and under any wider window |
| Filters.MatchesKeywords | job.py:77-79 | raises iff title or description is null; otherwise true iff some keyword is a substring of lower(title + " " + description), absent fields as "" |
| Filters.AllowedPublisher | job.py:82-83 | true iff the publisher equals none of the excluded names; a missing publisher is never excluded |
| Filters.EmptyExclusionAdmitsAll | job.py:82-83 | the shipped exclusion list (job.py:31) is empty, and with an empty list every record is allowed |
| Filters.Admits | job.py:118-120 | the short-circuit condition raises iff the record is recent with a null text field, and admits iff all three predicates hold |
| Filters.AdmittedHasNoNullText | job.py:116-121 | an admitted record has neither a null title nor a null description |
| Filters.FilterChain | job.py:116-121 | a comprehension that does not raise returns no more records than it got, all drawn from its input |
| Filters.FilterChainSpec | job.py:116-121 | the comprehension raises iff some record's condition raises, and otherwise equals the filter by the condition |
| Filters.FilterChainSelects | job.py:116-121 | the result is an order-preserving subsequence, every element passes all three predicates, no passing record is dropped, and its length is the number of passing records |
| Filters.FilterChainIdempotent | job.py:116-121 | filtering the filtered list again returns it unchanged |
| Filters.FilterChainOrderIrrelevant | job.py:116-121 | when the chain does not raise, filtering by publisher, then by keywords (a TypeError counted as a rejection), then by recency gives the same list |
| Filters.AdmitsReordered | job.py:118-120 | the condition with its conjuncts reversed raises whenever the publisher is allowed and a text field is null, recent or not, and admits exactly what the code's order admits |
| Filters.ReorderedConditionRaises | job.py:118-120 | a non-recent record with a null title is rejected quietly in the code's order but makes the reversed order raise |
| Seqs.Filter | job.py:116-121 | a comprehension result is no longer than its input and holds only input elements satisfying the condition |
| Seqs.FilterSelects | job.py:116-121 | a comprehension result is a subsequence, drops nothing satisfying the condition, and has as many elements as satisfy it |
| Seqs.FilterFilter | job.py:116-121 | two successive filters equal one filter by the conjunction |
| Seqs.FilterIdempotent | job.py:116-121 | filtering twice by the same condition equals filtering once |
| Seqs.SliceTo | job.py:123 | `s[:n]` is a prefix of length min(n, len) for n >= 0 and max(0, len + n) for n < 0 |
| Projection.Truncate | job.py:94 | the description ends in "...", has at most 203 characters, starts with a prefix of the original, and keeps a description of at most 200 characters whole |
| Projection.ApplyLink | job.py:92 | the apply link is the direct link when non-empty, else the search-engine link; it is non-empty iff either link is |
| Projection.Simplify | job.py:86-95 | raises iff the description is null |
| Projection.SimplifyShape | job.py:86-95 | a simplified record's description ends in "...", has at most 203 characters and starts with a prefix of the original; its apply link is non-empty iff either link field is; the other fields are as `get` returns them |
| Wrappers.MapResult | job.py:123 | a comprehension over a function that may raise raises iff some element makes it raise, and otherwise maps element by element, keeping length and order |
| Projection.SimplifyAll | job.py:123 | mapping `simplify` raises iff some description is null, and otherwise simplifies element by element |
| Pipeline.CollectJobs | job.py:98-123 | a run that does not raise returns no more jobs than records came in, and no more than a non-negative MAX_JOBS |
| Pipeline.FilteredSimplifies | job.py:116-123 | simplifying the filtered list never raises |
| Pipeline.CollectJobsFails | job.py:108-123 | the run raises iff a deduplicated record is recent with a null title or description |
| Pipeline.CollectJobsLimit | job.py:116-123 | a run that does not raise returns the first MAX_JOBS simplified filtered records, in order, each description ending in "..." and at most 203 characters long |
| Pipeline.ProvenanceAt | job.py:109-123 | the i-th job returned is the simplification of the last record for a distinct key, and that record passes all three filters |
| Pipeline.CollectJobsProvenance | job.py:109-123 | every job returned is the simplification of the last record for a distinct key, and that record passes all three filters |
| Outreach.Message | job.py:145-151 | the message names the job's title, company and publisher and ends with the candidate's name |
| Outreach.GenerateOutreach | job.py:142-153 | one pair per job, in order, each job with its own message |
| Scenarios.DevOpsTitleMatches | job.py:77-79 | the title "Senior DevOps Engineer" matches the shipped keyword "devops" |
| Scenarios.RecentDevOpsJobReported | job.py:108-123 | a devops posting two hours old, stamped with a trailing "Z", is reported with the shipped settings |
| Scenarios.StaleJobExcluded | job.py:70-74 | the same posting thirty hours old is dropped by the 24-hour window |
| Scenarios.SameIdKeepsLater | job.py:109-114 | two records with one id give one job carrying the second record's employer |
| Scenarios.NullTitleUndatedRecordSkipped | job.py:116-121 | a record with a null title and no posting time is dropped quietly by the shipped chain, while the reversed condition raises on it |
| Scenarios.StaleLaterRecordHidesEarlier | job.py:109-121 | a stale later record for an id hides an earlier recent one, because deduplication precedes filtering |

## Left out

- `fetch_jobs`, the API-key check and the per-query error handling (job.py:40-58, job.py:101-106). They are HTTP, environment variables and printing. The model starts from the records all searches returned, in arrival order.
- The ISO-8601 parsing inside `parse_utc`. It is library code, so it is the parameter `fromIso`; only the empty-input and "Z" handling around it are modelled.
- The wall clock `datetime.now(timezone.utc)`. It is the parameter `now`, one instant for the whole run, although job.py:74 reads the clock afresh for every `is_recent` call. A record whose age crosses the window while the comprehension runs is therefore not modelled.
- Filters.FilterChainIdempotent: holds only for one fixed `now`; re-reading the clock between the two passes, as the code would, can drop a record that has aged past the window.
- Filters.FilterChainOrderIrrelevant: holds only for one fixed `now`, for the same reason, and only with a raising keyword test counted as a rejection. In the code the order is not irrelevant: with `matches_keywords` before `is_recent`, a non-recent record with a null title or description raises (`Filters.ReorderedConditionRaises`).
- The `TypeError` raised when an offset-less timestamp is subtracted from an aware one. `fromIso` yields absolute instants only.
- Filters.IsRecent: instants are integers in microseconds; arithmetic on `datetime` objects and their offsets is not modelled.
- Text.Lower: maps only ASCII A-Z; Python's `str.lower` uses full Unicode case mapping.
- Field values: only string or null values are modelled for the keys read; a number or list under those keys is not.
- `id(j)` memory addresses are replaced by the record's input position.
- `generate_email`, `write_output` and `main` (job.py:126-139, job.py:156-183). They are string formatting, file output and printing, with no invariant beyond formatting.
- `SEARCH_QUERIES`, `LOCATION`, `OUTPUT_FILE`: they only parameterise the fetch and the file output.
