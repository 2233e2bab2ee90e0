/** `generate_outreach`: one templated message per job, paired with the job. */
module Outreach {
  import opened Wrappers
  import opened Text
  import opened Projection

  /** How an f-string renders a value that `job.get` returned. */
  function Show(v: Option<string>): string
  {
    match v
    case Some(s) => s
    case None => "None"
  }

  /** The fixed text between the substituted values. */
  const Greeting: string := "Hi {Name},\n\nI came across the *"
  const JobAt: string := "* job at *"
  const Via: string := "* via "
  const Pitch: string :=
    ". I have 3+ years of hands-on experience with AWS, Kubernetes, Docker, Terraform, and CI/CD pipelines.\n\n"
    + "I\U{2019}d love to explore if I could be a good fit. Can we connect?\n\nRegards,\n"

  /** The pieces substituted into a seven-part template all occur in it,
      and the last piece ends it. */
  lemma TemplateShape(g: string, t: string, j: string, c: string, v: string, p: string, s: string, n: string)
    ensures var m := g + t + j + c + v + p + s + n;
      && Occurs(t, m) && Occurs(c, m) && Occurs(p, m)
      && |n| <= |m| && m[|m| - |n|..] == n
  {
    var m := g + t + j + c + v + p + s + n;
    OccursInConcat(g, t, j + c + v + p + s + n);
    assert m == g + t + (j + c + v + p + s + n);
    OccursInConcat(g + t + j, c, v + p + s + n);
    assert m == (g + t + j) + c + (v + p + s + n);
    OccursInConcat(g + t + j + c + v, p, s + n);
    assert m == (g + t + j + c + v) + p + (s + n);
  }

  /** The message for one job, signed with the candidate's name. It names
      the job's title, company and publisher, and ends with the name. */
  function Message(job: SimpleJob, candidate: string): (m: string)
    ensures Occurs(Show(job.title), m)
    ensures Occurs(Show(job.company), m)
    ensures Occurs(Show(job.publisher), m)
    ensures |candidate| <= |m| && m[|m| - |candidate|..] == candidate
  {
    TemplateShape(Greeting, Show(job.title), JobAt, Show(job.company), Via, Show(job.publisher), Pitch, candidate);
    Greeting + Show(job.title) + JobAt + Show(job.company) + Via + Show(job.publisher) + Pitch + candidate
  }

  /** Every job, in order, paired with its message. */
  function GenerateOutreach(jobs: seq<SimpleJob>, candidate: string): (r: seq<(SimpleJob, string)>)
    ensures |r| == |jobs|
    ensures forall i :: 0 <= i < |jobs| ==> r[i].0 == jobs[i] && r[i].1 == Message(jobs[i], candidate)
  {
    if |jobs| == 0 then []
    else
      var rest := GenerateOutreach(jobs[1..], candidate);
      assert forall i :: 1 <= i < |jobs| ==> jobs[i] == jobs[1..][i - 1];
      [(jobs[0], Message(jobs[0], candidate))] + rest
  }
}
