/** The resume ranking pipeline: job-description skills by whole-word
    vocabulary matching, a skill-overlap percentage, a guarded lexical
    similarity percentage, and a stable descending ranking on the 50/50
    combination of the two. */
module RankingPipeline {
  import opened Wrappers
  import opened Text
  import opened Collections
  import opened StableSort
  import opened Ranking
  import opened Overlap

  /** The job-description skills: the vocabulary entries that occur as a whole
      word in the lowered description, in vocabulary order, duplicates kept. */
  function ExtractJobSkills(vocabulary: seq<string>, jobText: string): (r: seq<string>)
    ensures forall s :: s in r <==> s in vocabulary && HasWholeWord(Lower(jobText), s)
    ensures forall s :: multiset(r)[s] == if HasWholeWord(Lower(jobText), s) then multiset(vocabulary)[s] else 0
  {
    var p := s => HasWholeWord(Lower(jobText), s);
    forall s ensures (s in Filter(vocabulary, p) <==> s in vocabulary && p(s))
                  && multiset(Filter(vocabulary, p))[s] == if p(s) then multiset(vocabulary)[s] else 0 {
      FilterMember(vocabulary, p, s);
      FilterCount(vocabulary, p, s);
    }
    Filter(vocabulary, p)
  }

  /** The skill-overlap percentage: how many distinct lowered job skills the
      resume lists, over the number of job-skill entries. */
  function SkillMatchScore(resumeSkills: seq<string>, jobSkills: seq<string>): (r: real)
    ensures 0.0 <= r <= 100.0
    ensures |resumeSkills| == 0 || |jobSkills| == 0 ==> r == 0.0
    ensures r == 100.0 <==>
      && |resumeSkills| > 0 && |jobSkills| > 0
      && ToSet(LowerAll(jobSkills)) <= ToSet(LowerAll(resumeSkills))
      && Distinct(LowerAll(jobSkills))
  {
    if |resumeSkills| == 0 || |jobSkills| == 0 then 0.0
    else
      var common := ToSet(LowerAll(resumeSkills)) * ToSet(LowerAll(jobSkills));
      OverlapCount(LowerAll(resumeSkills), LowerAll(jobSkills));
      RatioBounds(|common|, |jobSkills|);
      (|common| as real) / (|jobSkills| as real) * 100.0
  }

  /** Only the lowered forms are compared: lowering either list first changes
      nothing. */
  lemma SkillMatchIgnoresCase(resumeSkills: seq<string>, jobSkills: seq<string>)
    ensures SkillMatchScore(LowerAll(resumeSkills), LowerAll(jobSkills)) == SkillMatchScore(resumeSkills, jobSkills)
  {
    LowerAllIdempotent(resumeSkills);
    LowerAllIdempotent(jobSkills);
  }

  /** The similarity percentage: 0 when either text is empty or the
      vectoriser fails (`cosine` is `None`), otherwise the cosine as a
      percentage. */
  function SemanticSimilarity(resumeText: string, jobText: string, cosine: Option<UnitReal>): (r: real)
    ensures 0.0 <= r <= 100.0
    ensures resumeText == "" || jobText == "" || cosine.None? ==> r == 0.0
    ensures resumeText != "" && jobText != "" && cosine.Some? ==> r == cosine.value * 100.0
  {
    if resumeText == "" || jobText == "" then 0.0
    else match cosine
      case None => 0.0
      case Some(c) => c * 100.0
  }

  /** What the field extractors produced for one resume. */
  datatype ResumeData = ResumeData(
    name: Option<string>,
    email: Option<string>,
    phone: Option<string>,
    skills: seq<string>,
    github: Option<string>,
    linkedin: Option<string>,
    education: Option<set<string>>,
    fullText: string)

  /** One scored resume; `matching` and `missing` are the lowered skill sets. */
  datatype Scored = Scored(
    path: string,
    data: ResumeData,
    matching: set<string>,
    missing: set<string>,
    skillMatch: real,
    semantic: real,
    final: real)

  function FinalScore(c: Scored): real { c.final }

  /** Scores one resume against the job skills and the job text. */
  function ScoreResume(path: string, data: ResumeData, jobSkills: seq<string>, jobText: string,
                       cosine: (string, string) -> Option<UnitReal>): (c: Scored)
    ensures c.path == path && c.data == data
    ensures c.skillMatch == SkillMatchScore(data.skills, jobSkills)
    ensures c.semantic == SemanticSimilarity(data.fullText, jobText, cosine(data.fullText, jobText))
    ensures c.final == 0.5 * c.skillMatch + 0.5 * c.semantic
    ensures 0.0 <= c.final <= 100.0
    ensures c.matching !! c.missing
    ensures c.matching + c.missing == ToSet(LowerAll(jobSkills))
    ensures c.matching <= ToSet(LowerAll(data.skills))
    ensures c.missing !! ToSet(LowerAll(data.skills))
  {
    var skill := SkillMatchScore(data.skills, jobSkills);
    var semantic := SemanticSimilarity(data.fullText, jobText, cosine(data.fullText, jobText));
    var resumeSet, jobSet := ToSet(LowerAll(data.skills)), ToSet(LowerAll(jobSkills));
    Scored(path, data, resumeSet * jobSet, jobSet - resumeSet, skill, semantic, skill * 0.5 + semantic * 0.5)
  }

  function ScoreAll(resumes: seq<(string, ResumeData)>, jobSkills: seq<string>, jobText: string,
                    cosine: (string, string) -> Option<UnitReal>): (r: seq<Scored>)
    ensures |r| == |resumes|
    ensures forall i :: 0 <= i < |resumes| ==> r[i] == ScoreResume(resumes[i].0, resumes[i].1, jobSkills, jobText, cosine)
  {
    seq(|resumes|, i requires 0 <= i < |resumes| => ScoreResume(resumes[i].0, resumes[i].1, jobSkills, jobText, cosine))
  }

  /** Ranks the resumes (in the dictionary's insertion order) against one job
      description: one record per resume, ranks 1..N in output order,
      non-increasing final score, ties in input order. */
  function RankResumes(resumes: seq<(string, ResumeData)>, jobText: string, vocabulary: seq<string>,
                       cosine: (string, string) -> Option<UnitReal>): (r: seq<Ranked<Scored>>)
    ensures |r| == |resumes|
    ensures forall i :: 0 <= i < |r| ==> r[i].rank == i + 1
    ensures forall i, j :: 0 <= i < j < |r| ==> r[i].entry.final >= r[j].entry.final
    ensures multiset(Entries(r)) == multiset(ScoreAll(resumes, ExtractJobSkills(vocabulary, jobText), jobText, cosine))
    ensures forall v :: WithKey(Entries(r), FinalScore, v)
                     == WithKey(ScoreAll(resumes, ExtractJobSkills(vocabulary, jobText), jobText, cosine), FinalScore, v)
  {
    var jobSkills := ExtractJobSkills(vocabulary, jobText);
    var r := RankByKey(ScoreAll(resumes, jobSkills, jobText, cosine), FinalScore);
    assert forall i, j :: 0 <= i < j < |r| ==> r[i].entry.final >= r[j].entry.final by {
      forall i, j | 0 <= i < j < |r| ensures r[i].entry.final >= r[j].entry.final {
        assert Entries(r)[i] == r[i].entry && Entries(r)[j] == r[j].entry;
      }
    }
    r
  }

  /** Every ranked record is the score of one of the input resumes. */
  lemma RankedComeFromInput(resumes: seq<(string, ResumeData)>, jobText: string, vocabulary: seq<string>,
                            cosine: (string, string) -> Option<UnitReal>, i: nat)
    requires i < |resumes|
    ensures exists k :: (0 <= k < |resumes| && RankResumes(resumes, jobText, vocabulary, cosine)[i].entry
      == ScoreResume(resumes[k].0, resumes[k].1, ExtractJobSkills(vocabulary, jobText), jobText, cosine))
  {
    var r := RankResumes(resumes, jobText, vocabulary, cosine);
    var scored := ScoreAll(resumes, ExtractJobSkills(vocabulary, jobText), jobText, cosine);
    assert Entries(r)[i] in multiset(Entries(r));
    assert r[i].entry in multiset(scored);
    var k :| 0 <= k < |scored| && scored[k] == r[i].entry;
  }

  /** An empty job description gives every resume a zero similarity score, so
      the order is decided by the skill score alone. */
  lemma EmptyJobTextRanksBySkill(resumes: seq<(string, ResumeData)>, vocabulary: seq<string>,
                                 cosine: (string, string) -> Option<UnitReal>, i: nat)
    requires i < |resumes|
    ensures var e := RankResumes(resumes, "", vocabulary, cosine)[i].entry;
      e.semantic == 0.0 && e.final == 0.5 * e.skillMatch
  {
    RankedComeFromInput(resumes, "", vocabulary, cosine, i);
  }
}
