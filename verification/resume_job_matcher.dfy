/** The CSV job matcher: skills arrive as comma-separated strings, the match
    score is a fraction in [0, 1], the final score weighs it 0.7 against 0.3
    for the cosine similarity, and every job gets its own ranking of all
    candidates. */
module JobMatcher {
  import opened Wrappers
  import opened Text
  import opened Collections
  import opened StableSort
  import opened Ranking
  import opened Overlap

  /** One token: the piece stripped, then lowered. */
  function Token(piece: string): string {
    Lower(Strip(piece))
  }

  /** `[skill.strip().lower() for skill in s.split(',')]`. */
  function SkillTokens(s: string): (r: seq<string>)
    ensures |r| == |Split(s, ',')|
    ensures forall i :: 0 <= i < |r| ==> r[i] == Token(Split(s, ',')[i])
  {
    var pieces := Split(s, ',');
    seq(|pieces|, i requires 0 <= i < |pieces| => Token(pieces[i]))
  }

  /** A token has no surrounding whitespace, no upper-case letter, and no comma. */
  lemma TokenShape(piece: string)
    ensures Trimmed(Token(piece)) && IsLowerCase(Token(piece))
    ensures ',' !in piece ==> ',' !in Token(piece)
  {
    var q := Strip(piece);
    var r := Lower(q);
    LowerIsLowerCase(q);
  }

  /** Every string yields at least one token (the empty string yields `[""]`),
      and every token is trimmed, lower-case and comma-free. */
  lemma SkillTokensShape(s: string)
    ensures |SkillTokens(s)| >= 1
    ensures forall t :: t in SkillTokens(s) ==> Trimmed(t) && IsLowerCase(t) && ',' !in t
  {
    var r, pieces := SkillTokens(s), Split(s, ',');
    forall i | 0 <= i < |r| ensures Trimmed(r[i]) && IsLowerCase(r[i]) && ',' !in r[i] {
      assert ',' !in pieces[i];
      TokenShape(pieces[i]);
    }
  }

  /** The match score: distinct job tokens the resume also lists, over the
      number of job tokens; 0 when either string is empty. */
  function SkillMatch(resumeSkills: string, jobSkills: string): (r: UnitReal)
    ensures resumeSkills == "" || jobSkills == "" ==> r == 0.0
    ensures r == 1.0 <==>
      && resumeSkills != "" && jobSkills != ""
      && ToSet(SkillTokens(jobSkills)) <= ToSet(SkillTokens(resumeSkills))
      && Distinct(SkillTokens(jobSkills))
  {
    if resumeSkills == "" || jobSkills == "" then 0.0
    else
      SkillTokensShape(jobSkills);
      CoverageRatio(SkillTokens(resumeSkills), SkillTokens(jobSkills))
  }

  /** The similarity score: 0 when either string is empty or the vectoriser
      raises (`cosine` is `None`), otherwise the cosine itself. */
  function SimilarityScore(resumeSkills: string, jobSkills: string, cosine: Option<UnitReal>): (r: UnitReal)
    ensures resumeSkills == "" || jobSkills == "" || cosine.None? ==> r == 0.0
    ensures resumeSkills != "" && jobSkills != "" && cosine.Some? ==> r == cosine.value
  {
    if resumeSkills == "" || jobSkills == "" then 0.0
    else match cosine
      case None => 0.0
      case Some(c) => c
  }

  /** A row of the resume or the job CSV: an identifier and its skill string. */
  datatype SkillRow = SkillRow(id: string, skills: string)

  /** One (job, candidate) pair before ranking. The matching and missing sets
      are computed from the tokens even when a skill string is empty. */
  datatype MatchRow = MatchRow(
    jobId: string,
    candidateId: string,
    matchScore: real,
    similarity: real,
    final: real,
    matching: set<string>,
    missing: set<string>)

  function FinalScore(m: MatchRow): real { m.final }

  function ScorePair(job: SkillRow, resume: SkillRow, cosine: (string, string) -> Option<UnitReal>): (m: MatchRow)
    ensures m.jobId == job.id && m.candidateId == resume.id
    ensures m.matchScore == SkillMatch(resume.skills, job.skills)
    ensures m.similarity == SimilarityScore(resume.skills, job.skills, cosine(resume.skills, job.skills))
    ensures m.final == 0.7 * m.matchScore + 0.3 * m.similarity
    ensures 0.0 <= m.final <= 1.0
    ensures m.matching !! m.missing
    ensures m.matching + m.missing == ToSet(SkillTokens(job.skills))
    ensures m.matching <= ToSet(SkillTokens(resume.skills))
  {
    var matchScore := SkillMatch(resume.skills, job.skills);
    var similarity := SimilarityScore(resume.skills, job.skills, cosine(resume.skills, job.skills));
    var rs, js := ToSet(SkillTokens(resume.skills)), ToSet(SkillTokens(job.skills));
    MatchRow(job.id, resume.id, matchScore, similarity, 0.7 * matchScore + 0.3 * similarity, rs * js, js - rs)
  }

  function ScoreJob(job: SkillRow, resumes: seq<SkillRow>, cosine: (string, string) -> Option<UnitReal>): (r: seq<MatchRow>)
    ensures |r| == |resumes|
    ensures forall k :: 0 <= k < |resumes| ==> r[k] == ScorePair(job, resumes[k], cosine)
  {
    seq(|resumes|, k requires 0 <= k < |resumes| => ScorePair(job, resumes[k], cosine))
  }

  /** The candidates for one job: every resume once, ranks 1..N, final scores
      non-increasing, ties in resume order. */
  function RankForJob(job: SkillRow, resumes: seq<SkillRow>, cosine: (string, string) -> Option<UnitReal>): (r: seq<Ranked<MatchRow>>)
    ensures |r| == |resumes|
    ensures forall k :: 0 <= k < |r| ==> r[k].rank == k + 1 && r[k].entry.jobId == job.id
    ensures NonIncreasing(Entries(r), FinalScore)
    ensures multiset(Entries(r)) == multiset(ScoreJob(job, resumes, cosine))
    ensures forall v :: WithKey(Entries(r), FinalScore, v) == WithKey(ScoreJob(job, resumes, cosine), FinalScore, v)
  {
    var scored := ScoreJob(job, resumes, cosine);
    RankKeeps(scored, FinalScore, (m: MatchRow) => m.jobId == job.id);
    RankByKey(scored, FinalScore)
  }

  /** The ranking of one job, as a list of ranked rows of `n` entries. */
  function JobBlocks(resumes: seq<SkillRow>, jobs: seq<SkillRow>, cosine: (string, string) -> Option<UnitReal>): (g: seq<seq<Ranked<MatchRow>>>)
    ensures |g| == |jobs|
    ensures forall j :: 0 <= j < |jobs| ==> g[j] == RankForJob(jobs[j], resumes, cosine) && |g[j]| == |resumes|
  {
    seq(|jobs|, j requires 0 <= j < |jobs| => RankForJob(jobs[j], resumes, cosine))
  }

  /** All jobs in order, each followed by its ranked candidates. */
  function RankCandidates(resumes: seq<SkillRow>, jobs: seq<SkillRow>, cosine: (string, string) -> Option<UnitReal>): (r: seq<Ranked<MatchRow>>)
    ensures |r| == |jobs| * |resumes|
  {
    var groups := JobBlocks(resumes, jobs, cosine);
    FlattenBlocksLength(groups, |resumes|);
    Flatten(groups)
  }

  /** Row `k` of job `j`'s ranking sits at index `j * |resumes| + k` of the
      combined table. */
  lemma RankCandidatesAt(resumes: seq<SkillRow>, jobs: seq<SkillRow>, cosine: (string, string) -> Option<UnitReal>, j: nat, k: nat)
    requires j < |jobs| && k < |resumes|
    ensures BlockIndex(j, |resumes|, k) < |RankCandidates(resumes, jobs, cosine)|
         && RankCandidates(resumes, jobs, cosine)[BlockIndex(j, |resumes|, k)] == RankForJob(jobs[j], resumes, cosine)[k]
  {
    FlattenBlockAt(JobBlocks(resumes, jobs, cosine), |resumes|, j, k);
  }

  /** In the combined table every job's block holds each candidate once, under
      that job's identifier, ranks counting 1..N. */
  lemma RankCandidatesRanks(resumes: seq<SkillRow>, jobs: seq<SkillRow>, cosine: (string, string) -> Option<UnitReal>, j: nat, k: nat)
    requires j < |jobs| && k < |resumes|
    ensures BlockIndex(j, |resumes|, k) < |RankCandidates(resumes, jobs, cosine)|
         && RankCandidates(resumes, jobs, cosine)[BlockIndex(j, |resumes|, k)].rank == k + 1
         && RankCandidates(resumes, jobs, cosine)[BlockIndex(j, |resumes|, k)].entry.jobId == jobs[j].id
  {
    RankCandidatesAt(resumes, jobs, cosine, j, k);
  }
}
