/** Skills from a job description: noun phrases that mention a common
    technology, the text after a trigger phrase such as "experience with",
    and the common technologies named in the text; each candidate is cleaned,
    short ones dropped and repeats removed. */
module JobSkills {
  import opened Wrappers
  import opened Text
  import opened Collections

  // ---------------------------------------------------------------------
  // Trigger phrases
  // ---------------------------------------------------------------------

  /** The phrases after which the description names skills. */
  const TriggerPhrases: seq<string> := ["proficient in", "experience with", "knowledge of", "skilled in", "expertise in"]

  /** `.`, `,`, `:` and `;` end a captured list. */
  predicate IsStop(c: char) { c == '.' || c == ',' || c == ':' || c == ';' }
  predicate NotStop(c: char) { !IsStop(c) }

  /** `\s+([^.,:;]+)` from `p`: the blanks are greedy, and the group takes
      everything up to the next stop character. When a stop character or
      the end follows the blanks at once, the blanks give back their last
      character, which the group then takes on its own. Returns the bounds
      of the group. */
  function GroupAfter(t: string, p: nat): (r: Option<(nat, nat)>)
    requires p <= |t|
    ensures r.Some? ==> p < r.value.0 < r.value.1 <= |t|
    ensures r.Some? ==> forall k :: p <= k < r.value.0 ==> IsSpace(t[k])
    ensures r.Some? ==> forall k :: r.value.0 <= k < r.value.1 ==> NotStop(t[k])
    ensures r.Some? ==> r.value.1 == |t| || IsStop(t[r.value.1])
    ensures r.Some? ==> forall q :: r.value.0 < q < |t| && AllChars(t[p..q], IsSpace) ==> IsStop(t[q])
    ensures p + 1 < |t| && IsSpace(t[p]) && NotStop(t[p + 1]) ==> r.Some?
  {
    var q := RunEnd(t, p, IsSpace);
    if q == p then None
    else if q < |t| && NotStop(t[q]) then Some((q, RunEnd(t, q, NotStop)))
    else if q - 1 > p then Some((q - 1, q))
    else None
  }

  /** The alternatives `(?:a|b|…)` tried in order at `i`, each followed by
      the group: the bounds of the group for the first one that succeeds. */
  function CaptureWith(t: string, i: nat, phrases: seq<string>): (r: Option<(nat, nat)>)
    ensures r.Some? ==> i < r.value.0 < r.value.1 <= |t|
  {
    if |phrases| == 0 then None
    else
      var here := if OccursAt(t, phrases[0], i) then GroupAfter(t, i + |phrases[0]|) else None;
      if here.Some? then here else CaptureWith(t, i, phrases[1..])
  }

  /** A capture follows one of the phrases and at least one blank, holds no
      stop character and ends at a stop character or the end of the text. */
  lemma {:induction false} CaptureWithShape(t: string, i: nat, phrases: seq<string>, s: nat, e: nat)
    requires CaptureWith(t, i, phrases) == Some((s, e))
    ensures exists j :: 0 <= j < |phrases| && OccursAt(t, phrases[j], i) && i + |phrases[j]| < s
                        && forall k :: i + |phrases[j]| <= k < s ==> IsSpace(t[k])
    ensures forall k :: s <= k < e ==> NotStop(t[k])
    ensures e == |t| || IsStop(t[e])
  {
    var here := if OccursAt(t, phrases[0], i) then GroupAfter(t, i + |phrases[0]|) else None;
    if here.None? {
      CaptureWithShape(t, i, phrases[1..], s, e);
      var j :| 0 <= j < |phrases| - 1 && OccursAt(t, phrases[1..][j], i) && i + |phrases[1..][j]| < s
               && forall k :: i + |phrases[1..][j]| <= k < s ==> IsSpace(t[k]);
      assert phrases[1..][j] == phrases[j + 1];
    }
  }

  /** The whole pattern tried at `i`: `\b`, a phrase, blanks and the group. */
  function CaptureAt(t: string, i: nat, phrases: seq<string>): (r: Option<(nat, nat)>)
    ensures r.Some? ==> i < r.value.0 < r.value.1 <= |t|
  {
    if IsBoundary(t, i) then CaptureWith(t, i, phrases) else None
  }

  /** One way `\s+([^.,:;]+)` can match after phrase `j` at `i`, read with
      no greediness: blanks from the end of the phrase up to `s`, then a
      group of non-stop characters from `s` up to `e`. */
  predicate CaptureReading(t: string, i: nat, phrases: seq<string>, j: nat, s: nat, e: nat) {
    && j < |phrases| && OccursAt(t, phrases[j], i)
    && i + |phrases[j]| < s < e <= |t|
    && (forall k :: i + |phrases[j]| <= k < s ==> IsSpace(t[k]))
    && (forall k :: s <= k < e ==> NotStop(t[k]))
  }

  /** The trigger pattern `\b(?:a|b|…)\s+([^.,:;]+)` has a reading at `i`. */
  ghost predicate CaptureMatchesAt(t: string, i: nat, phrases: seq<string>) {
    IsBoundary(t, i) && exists j: nat, s: nat, e: nat :: CaptureReading(t, i, phrases, j, s, e)
  }

  /** Blanks followed by at least one non-stop character always give the
      group something: the greedy blanks give back at most one character. */
  lemma GroupAfterComplete(t: string, p: nat, s: nat, e: nat)
    requires p < s < e <= |t|
    requires forall k :: p <= k < s ==> IsSpace(t[k])
    requires forall k :: s <= k < e ==> NotStop(t[k])
    ensures GroupAfter(t, p).Some?
  {
    RunEndCovers(t, p, s, IsSpace);
  }

  /** Some phrase with a reading after it makes the alternation succeed. */
  lemma {:induction false} CaptureWithComplete(t: string, i: nat, phrases: seq<string>, j: nat, s: nat, e: nat)
    requires CaptureReading(t, i, phrases, j, s, e)
    ensures CaptureWith(t, i, phrases).Some?
    decreases j
  {
    if j == 0 {
      GroupAfterComplete(t, i + |phrases[0]|, s, e);
    } else if !(OccursAt(t, phrases[0], i) && GroupAfter(t, i + |phrases[0]|).Some?) {
      assert phrases[1..][j - 1] == phrases[j];
      CaptureWithComplete(t, i, phrases[1..], j - 1, s, e);
    }
  }

  /** The capture matcher succeeds at `i` exactly when the trigger pattern
      has a reading there. */
  lemma CaptureAtIff(t: string, i: nat, phrases: seq<string>)
    ensures CaptureAt(t, i, phrases).Some? <==> CaptureMatchesAt(t, i, phrases)
  {
    if CaptureAt(t, i, phrases).Some? {
      var (s, e) := CaptureAt(t, i, phrases).value;
      CaptureWithShape(t, i, phrases, s, e);
      var j :| 0 <= j < |phrases| && OccursAt(t, phrases[j], i) && i + |phrases[j]| < s
               && forall k :: i + |phrases[j]| <= k < s ==> IsSpace(t[k]);
      assert CaptureReading(t, i, phrases, j, s, e);
    }
    if CaptureMatchesAt(t, i, phrases) {
      var j: nat, s: nat, e: nat :| CaptureReading(t, i, phrases, j, s, e);
      CaptureWithComplete(t, i, phrases, j, s, e);
    }
  }

  function CaptureMatcher(phrases: seq<string>): (string, nat) -> Option<(nat, nat)> {
    (t, i) => CaptureAt(t, i, phrases)
  }

  function CaptureEnd(g: (nat, nat)): nat { g.1 }

  lemma CaptureMatcherIs(t: string, phrases: seq<string>)
    ensures forall i :: CaptureMatcher(phrases)(t, i) == CaptureAt(t, i, phrases)
    ensures Advances(t, CaptureMatcher(phrases), CaptureEnd)
  {
  }

  /** The trigger pattern matches at no index from `a` up to, not including, `b`. */
  predicate NoCaptureIn(t: string, phrases: seq<string>, a: nat, b: nat) {
    forall i :: a <= i < b ==> CaptureAt(t, i, phrases).None?
  }

  lemma NoCaptureInIs(t: string, phrases: seq<string>)
    ensures forall a, b :: NoMatchIn(t, CaptureMatcher(phrases), a, b) == NoCaptureIn(t, phrases, a, b)
  {
    CaptureMatcherIs(t, phrases);
  }

  /** `re.findall` for the trigger pattern: each match's start and group
      bounds, in text order, every match starting at or after the end of the
      previous one, and no match left out before, between or after them. */
  function FindAllCaptures(t: string, phrases: seq<string>): (r: seq<(nat, (nat, nat))>)
    ensures forall k :: 0 <= k < |r| ==> CaptureAt(t, r[k].0, phrases) == Some(r[k].1)
    ensures forall k :: 0 <= k < |r| - 1 ==> r[k].1.1 <= r[k + 1].0
    ensures |r| == 0 <==> NoCaptureIn(t, phrases, 0, |t| + 1)
    ensures |r| > 0 ==> NoCaptureIn(t, phrases, 0, r[0].0)
    ensures forall k :: 0 <= k < |r| - 1 ==> NoCaptureIn(t, phrases, r[k].1.1, r[k + 1].0)
    ensures |r| > 0 ==> NoCaptureIn(t, phrases, r[|r| - 1].1.1, |t| + 1)
  {
    CaptureMatcherIs(t, phrases);
    NoCaptureInIs(t, phrases);
    FindAll(t, 0, CaptureMatcher(phrases), CaptureEnd)
  }

  /** The captured texts, stripped. */
  function Captures(t: string, phrases: seq<string>): (r: seq<string>)
    ensures |r| == |FindAllCaptures(t, phrases)|
    ensures |r| == 0 <==> NoCaptureIn(t, phrases, 0, |t| + 1)
  {
    var ms := FindAllCaptures(t, phrases);
    seq(|ms|, k requires 0 <= k < |ms| => Strip(t[ms[k].1.0..ms[k].1.1]))
  }

  /** There are no captures exactly when the trigger pattern has a reading
      nowhere in the text. */
  lemma CapturesFound(t: string, phrases: seq<string>)
    ensures |Captures(t, phrases)| == 0 <==> forall i :: 0 <= i <= |t| ==> !CaptureMatchesAt(t, i, phrases)
  {
    forall i: nat
      ensures CaptureAt(t, i, phrases).Some? <==> CaptureMatchesAt(t, i, phrases)
    {
      CaptureAtIff(t, i, phrases);
    }
  }

  /** No capture holds a stop character. */
  lemma CapturesShape(t: string, phrases: seq<string>, k: nat)
    requires k < |Captures(t, phrases)|
    ensures AllChars(Captures(t, phrases)[k], NotStop)
  {
    var m := FindAllCaptures(t, phrases)[k];
    var (s, e) := m.1;
    CaptureWithShape(t, m.0, phrases, s, e);
    var g := t[s..e];
    assert forall c :: 0 <= c < |g| ==> g[c] == t[s + c];
    StripKeeps(g, NotStop);
  }

  // ---------------------------------------------------------------------
  // Cleaning a candidate
  // ---------------------------------------------------------------------

  /** The words `^(and|or|the|a|an|in|with|using)\s+` removes from the front
      of a candidate. */
  const Fillers: seq<string> := ["and", "or", "the", "a", "an", "in", "with", "using"]

  /** The filler `f` starts `s` and whitespace follows it. */
  predicate FillerAt(s: string, f: string) {
    StartsWith(s, f) && |f| < |s| && IsSpace(s[|f|])
  }

  /** `re.sub(r'^(f1|f2|…)\s+', '', s)`: drops the first listed word that
      starts `s` and is followed by whitespace, together with the whole
      whitespace run after it. */
  function DropFirst(s: string, fs: seq<string>): (r: string)
    ensures |r| <= |s| && r == s[|s| - |r|..]
    ensures FirstWhere(fs, f => FillerAt(s, f), 0).None? ==> r == s
  {
    match FirstWhere(fs, f => FillerAt(s, f), 0)
    case None => s
    case Some(j) => s[RunEnd(s, |fs[j]|, IsSpace)..]
  }

  /** A single-spaced string stays single-spaced in any slice. */
  lemma SingleSpacedSlice(s: string, i: nat, j: nat)
    requires SingleSpaced(s) && i <= j <= |s|
    ensures SingleSpaced(s[i..j])
  {
    var t := s[i..j];
    forall k | 0 <= k < |t| ensures t[k] == s[i + k] {
    }
  }

  /** Dropping a leading word keeps a cleaned string cleaned. */
  lemma DropFirstShape(s: string, fs: seq<string>)
    requires SingleSpaced(s) && Trimmed(s)
    ensures SingleSpaced(DropFirst(s, fs)) && Trimmed(DropFirst(s, fs))
  {
    var r := DropFirst(s, fs);
    SingleSpacedSlice(s, |s| - |r|, |s|);
    assert |r| > 0 ==> r[|r| - 1] == s[|s| - 1];
  }

  /** Stripping keeps single spacing. */
  lemma StripSingleSpaced(s: string)
    requires SingleSpaced(s)
    ensures SingleSpaced(Strip(s))
  {
    SingleSpacedSlice(s, StripBegin(s), StripEnd(s));
  }

  /** `re.sub(r'\s+', ' ', s).strip()` followed by the filler removal. The
      result has single spaces only and no whitespace at either end. */
  function Clean(s: string): (r: string)
    ensures SingleSpaced(r) && Trimmed(r)
  {
    var c := Strip(CollapseSpaces(s));
    StripSingleSpaced(CollapseSpaces(s));
    DropFirstShape(c, Fillers);
    DropFirst(c, Fillers)
  }

  /** None of the filler words holds whitespace. */
  lemma FillersSpaceFree(j: nat)
    requires j < |Fillers|
    ensures |Fillers[j]| > 0 && AllChars(Fillers[j], NotSpace)
  {
  }

  /** A candidate that is already single-spaced and trimmed and that does not
      start with a filler word and a blank is left as it is. */
  lemma CleanKeeps(s: string)
    requires SingleSpaced(s) && Trimmed(s)
    requires forall j :: 0 <= j < |Fillers| ==> !FillerAt(s, Fillers[j])
    ensures Clean(s) == s
  {
    CollapseSingleSpaces(s);
    StripTrimmed(s);
  }

  /** Whitespace-free words `fs`, the word `f` of them, one blank and a rest
      that starts with no blank: whichever listed word matches first, it is
      `f`, so exactly `f` and the blank go. */
  lemma DropFirstWord(fs: seq<string>, f: string, rest: string)
    requires forall j :: 0 <= j < |fs| ==> AllChars(fs[j], NotSpace)
    requires f in fs
    requires |rest| > 0 && !IsSpace(rest[0])
    ensures DropFirst(f + " " + rest, fs) == rest
  {
    var s := f + " " + rest;
    assert s[|f|] == ' ' && s[|f| + 1] == rest[0];
    assert s[..|f|] == f;
    var jf :| 0 <= jf < |fs| && fs[jf] == f;
    assert FillerAt(s, fs[jf]);
    var i := FirstWhere(fs, f => FillerAt(s, f), 0).value;
    var g := fs[i];
    assert g == s[..|g|];
    assert g == f;
    assert RunEnd(s, |f|, IsSpace) == |f| + 1;
    assert s[|f| + 1..] == rest;
  }

  /** A blank-free word, one blank and a cleaned rest make a cleaned string. */
  lemma WordThenRest(f: string, rest: string)
    requires |f| > 0 && AllChars(f, NotSpace)
    requires |rest| > 0 && SingleSpaced(rest) && Trimmed(rest)
    ensures SingleSpaced(f + " " + rest) && Trimmed(f + " " + rest)
  {
    var s := f + " " + rest;
    forall i | 0 <= i < |s| && IsSpace(s[i]) ensures s[i] == ' ' {
      if i > |f| {
        assert s[i] == rest[i - |f| - 1];
      }
    }
    forall i | 0 <= i < |s| - 1 ensures !(IsSpace(s[i]) && IsSpace(s[i + 1])) {
      if i == |f| {
        assert s[i + 1] == rest[0];
      } else if i > |f| {
        assert s[i] == rest[i - |f| - 1] && s[i + 1] == rest[i - |f|];
      }
    }
    assert s[0] == f[0] && s[|s| - 1] == rest[|rest| - 1];
  }

  /** A filler word followed by one blank and a cleaned rest loses exactly
      the filler and the blank. */
  lemma CleanDropsFiller(j: nat, rest: string)
    requires j < |Fillers|
    requires |rest| > 0 && SingleSpaced(rest) && Trimmed(rest)
    ensures Clean(Fillers[j] + " " + rest) == rest
  {
    var s := Fillers[j] + " " + rest;
    FillersSpaceFree(j);
    WordThenRest(Fillers[j], rest);
    CollapseSingleSpaces(s);
    StripTrimmed(s);
    forall i | 0 <= i < |Fillers| ensures AllChars(Fillers[i], NotSpace) {
      FillersSpaceFree(i);
    }
    DropFirstWord(Fillers, Fillers[j], rest);
  }

  // ---------------------------------------------------------------------
  // The common technologies
  // ---------------------------------------------------------------------

  /** The technologies matched directly in the description. */
  const CommonTechSkills: seq<string> := [
    "python", "java", "javascript", "html", "css", "sql", "nosql", "aws",
    "azure", "gcp", "docker", "kubernetes", "react", "angular", "vue",
    "node.js", "express", "django", "flask", "spring", "hibernate",
    "tensorflow", "pytorch", "scikit-learn", "pandas", "numpy", "r",
    "tableau", "power bi", "excel", "word", "powerpoint", "git", "github",
    "gitlab", "ci/cd", "jenkins", "agile", "scrum", "kanban", "jira"
  ]

  /** A blank-free word survives cleaning unchanged. */
  lemma CleanWord(s: string)
    requires |s| > 0 && AllChars(s, NotSpace)
    ensures Clean(s) == s
  {
    forall j | 0 <= j < |Fillers| ensures !FillerAt(s, Fillers[j]) {
      assert |Fillers[j]| < |s| ==> !IsSpace(s[|Fillers[j]|]);
    }
    CleanKeeps(s);
  }

  /** The characters the common technologies other than "power bi" are
      spelt with. */
  predicate IsNameChar(c: char) {
    'a' <= c <= 'z' || c == '.' || c == '-' || c == '/'
  }

  lemma CommonNamesPlainFront(k: nat)
    requires k < 14
    ensures |CommonTechSkills[k]| > 0 && AllChars(CommonTechSkills[k], IsNameChar)
  {
  }

  lemma CommonNamesPlainMiddle(k: nat)
    requires 14 <= k < 28
    ensures |CommonTechSkills[k]| > 0 && AllChars(CommonTechSkills[k], IsNameChar)
  {
  }

  lemma CommonNamesPlainBack(k: nat)
    requires 28 < k < |CommonTechSkills|
    ensures |CommonTechSkills[k]| > 0 && AllChars(CommonTechSkills[k], IsNameChar)
  {
  }

  /** The one common technology of two words survives cleaning unchanged. */
  lemma PowerBiClean()
    ensures Clean(CommonTechSkills[28]) == CommonTechSkills[28]
  {
    var s := "power bi";
    assert CommonTechSkills[28] == s;
    forall j | 0 <= j < |Fillers| ensures !FillerAt(s, Fillers[j]) {
      assert Fillers[j][0] != 'p';
      assert |Fillers[j]| <= |s| ==> s[..|Fillers[j]|][0] == 'p';
    }
    CleanKeeps(s);
  }

  /** The common technologies spelt without blanks survive cleaning unchanged. */
  lemma CommonWordClean(k: nat)
    requires k < |CommonTechSkills| && k != 28
    ensures Clean(CommonTechSkills[k]) == CommonTechSkills[k]
  {
    if k < 14 {
      CommonNamesPlainFront(k);
    } else if k < 28 {
      CommonNamesPlainMiddle(k);
    } else {
      CommonNamesPlainBack(k);
    }
    var s := CommonTechSkills[k];
    assert AllChars(s, NotSpace);
    CleanWord(s);
  }

  /** Every common technology survives cleaning unchanged. */
  lemma CommonSkillClean(k: nat)
    requires k < |CommonTechSkills|
    ensures Clean(CommonTechSkills[k]) == CommonTechSkills[k]
  {
    if k == 28 {
      PowerBiClean();
    } else {
      CommonWordClean(k);
    }
  }

  /** The whole common technology appears in the text of a candidate only if
      every character of it does; none of them holds a comma. */
  lemma CommonSkillNoComma(k: nat)
    requires k < |CommonTechSkills|
    ensures ',' !in CommonTechSkills[k]
  {
    if k == 28 {
      assert CommonTechSkills[k] == "power bi";
    } else if k < 14 {
      CommonNamesPlainFront(k);
    } else if k < 28 {
      CommonNamesPlainMiddle(k);
    } else {
      CommonNamesPlainBack(k);
    }
  }

  // ---------------------------------------------------------------------
  // Extraction from one description
  // ---------------------------------------------------------------------

  /** Cleaning adds no character other than whitespace. */
  lemma CleanChars(s: string, c: char)
    requires c in Clean(s) && !IsSpace(c)
    ensures c in s
  {
    var cs := CollapseSpaces(s);
    CleanInStripped(s, c);
    StripIn(cs, c);
  }

  lemma CleanInStripped(s: string, c: char)
    requires c in Clean(s)
    ensures c in Strip(CollapseSpaces(s))
  {
    DropFirstIn(Strip(CollapseSpaces(s)), Fillers, c);
  }

  /** Dropping a filler adds no character. */
  lemma DropFirstIn(t: string, fs: seq<string>, c: char)
    requires c in DropFirst(t, fs)
    ensures c in t
  {
    var r := DropFirst(t, fs);
    assert r == t[|t| - |r|..|t|];
    InSlice(t, |t| - |r|, |t|, c);
  }

  /** Some word of `ks` occurs in the lowered phrase. */
  predicate MentionsAny(chunk: string, ks: seq<string>) {
    exists k :: 0 <= k < |ks| && Contains(Lower(chunk), ks[k])
  }

  /** The noun phrases that mention a word of `ks`, stripped, in order. */
  function ChunkHits(chunks: seq<string>, ks: seq<string>): seq<string> {
    Map(Filter(chunks, c => MentionsAny(c, ks)), Strip)
  }

  /** The words of `ks` that occur anywhere in the text, as substrings, in
      list order. */
  function DirectHits(t: string, ks: seq<string>): seq<string> {
    Filter(ks, s => Contains(t, s))
  }

  /** Every raw candidate in the order it is collected: noun phrases,
      trigger-phrase captures, then direct matches. */
  function Candidates(t: string, chunks: seq<string>, phrases: seq<string>, ks: seq<string>): seq<string> {
    ChunkHits(chunks, ks) + Captures(t, phrases) + DirectHits(t, ks)
  }

  /** The candidates are the mentioning noun phrases, the captures and the
      listed words that occur in the text. */
  lemma CandidateMember(t: string, chunks: seq<string>, phrases: seq<string>, ks: seq<string>, c: string)
    ensures c in Candidates(t, chunks, phrases, ks) <==>
              (exists x :: x in chunks && MentionsAny(x, ks) && Strip(x) == c)
              || c in Captures(t, phrases)
              || (c in ks && Contains(t, c))
  {
    MapFilterMember(chunks, x => MentionsAny(x, ks), Strip, c);
    FilterMember(ks, s => Contains(t, s), c);
  }

  predicate LongEnough(s: string) { |s| > 2 }

  /** The candidates cleaned, those of at most two characters dropped. */
  function Cleaned(cands: seq<string>): seq<string> {
    Filter(Map(cands, Clean), LongEnough)
  }

  lemma CleanedMember(cands: seq<string>, x: string)
    ensures x in Cleaned(cands) <==> LongEnough(x) && exists c :: c in cands && Clean(c) == x
  {
    FilterMember(Map(cands, Clean), LongEnough, x);
    MapMember(cands, Clean, x);
  }

  /** The cleaning and deduplication for the candidates of `t`. */
  function ExtractWith(t: string, chunks: seq<string>, phrases: seq<string>, ks: seq<string>): (r: seq<string>)
    ensures Distinct(r)
  {
    Dedup(Cleaned(Candidates(t, chunks, phrases, ks)))
  }

  /** A skill is reported exactly when it is the cleaned form, longer than
      two characters, of some candidate. */
  lemma ExtractWithMember(t: string, chunks: seq<string>, phrases: seq<string>, ks: seq<string>, x: string)
    ensures x in ExtractWith(t, chunks, phrases, ks) <==>
              LongEnough(x) && exists c :: c in Candidates(t, chunks, phrases, ks) && Clean(c) == x
  {
    DedupKeeps(Cleaned(Candidates(t, chunks, phrases, ks)), x);
    CleanedMember(Candidates(t, chunks, phrases, ks), x);
  }

  /** Every reported skill is longer than two characters, single-spaced
      and trimmed: "r" is never reported. */
  lemma ExtractWithShape(t: string, chunks: seq<string>, phrases: seq<string>, ks: seq<string>, k: nat)
    requires k < |ExtractWith(t, chunks, phrases, ks)|
    ensures var x := ExtractWith(t, chunks, phrases, ks)[k];
      LongEnough(x) && SingleSpaced(x) && Trimmed(x)
  {
    var x := ExtractWith(t, chunks, phrases, ks)[k];
    ExtractWithMember(t, chunks, phrases, ks, x);
  }

  /** `extract_skills_from_job`, with the noun phrases the NLP model finds in
      the lowered description as input. */
  function ExtractSkillsFromJob(desc: string, chunks: seq<string>): (r: seq<string>)
    ensures Distinct(r)
  {
    ExtractWith(Lower(desc), chunks, TriggerPhrases, CommonTechSkills)
  }

  /** A common technology longer than two characters that occurs in the
      lowered description is reported as it is. */
  lemma DirectSkillReported(desc: string, chunks: seq<string>, k: nat)
    requires k < |CommonTechSkills| && LongEnough(CommonTechSkills[k])
    requires Contains(Lower(desc), CommonTechSkills[k])
    ensures CommonTechSkills[k] in ExtractSkillsFromJob(desc, chunks)
  {
    var s := CommonTechSkills[k];
    CommonSkillClean(k);
    ReportedWhenClean(Lower(desc), chunks, TriggerPhrases, CommonTechSkills, k);
  }

  lemma ReportedWhenClean(t: string, chunks: seq<string>, phrases: seq<string>, ks: seq<string>, k: nat)
    requires k < |ks| && LongEnough(ks[k]) && Contains(t, ks[k]) && Clean(ks[k]) == ks[k]
    ensures ks[k] in ExtractWith(t, chunks, phrases, ks)
  {
    CandidateMember(t, chunks, phrases, ks, ks[k]);
    ExtractWithMember(t, chunks, phrases, ks, ks[k]);
  }

  /** Stripping adds no comma. */
  lemma StripNoComma(x: string)
    requires ',' !in x
    ensures ',' !in Strip(x)
  {
    assert forall y :: y in Strip(x) ==> y in x;
  }

  /** A capture holds no comma. */
  lemma CaptureNoComma(t: string, phrases: seq<string>, c: string)
    requires c in Captures(t, phrases)
    ensures ',' !in c
  {
    var cs := Captures(t, phrases);
    var i :| 0 <= i < |cs| && cs[i] == c;
    CapturesShape(t, phrases, i);
    AllCharsExcludes(c, NotStop, ',');
  }

  /** No candidate holds a comma unless a noun phrase or a listed word
      does: captures stop at commas. */
  lemma CandidateNoComma(t: string, chunks: seq<string>, phrases: seq<string>, ks: seq<string>, c: string)
    requires forall j :: 0 <= j < |chunks| ==> ',' !in chunks[j]
    requires forall j :: 0 <= j < |ks| ==> ',' !in ks[j]
    requires c in Candidates(t, chunks, phrases, ks)
    ensures ',' !in c
  {
    CandidateMember(t, chunks, phrases, ks, c);
    if c in Captures(t, phrases) {
      CaptureNoComma(t, phrases, c);
    } else if c !in ks {
      var x :| x in chunks && MentionsAny(x, ks) && Strip(x) == c;
      StripNoComma(x);
    }
  }

  lemma ExtractWithNoComma(t: string, chunks: seq<string>, phrases: seq<string>, ks: seq<string>, k: nat)
    requires forall j :: 0 <= j < |chunks| ==> ',' !in chunks[j]
    requires forall j :: 0 <= j < |ks| ==> ',' !in ks[j]
    requires k < |ExtractWith(t, chunks, phrases, ks)|
    ensures ',' !in ExtractWith(t, chunks, phrases, ks)[k]
  {
    var x := ExtractWith(t, chunks, phrases, ks)[k];
    ExtractWithMember(t, chunks, phrases, ks, x);
    var c :| c in Candidates(t, chunks, phrases, ks) && Clean(c) == x;
    CandidateNoComma(t, chunks, phrases, ks, c);
    if ',' in x {
      CleanChars(c, ',');
    }
  }

  /** For a description whose noun phrases hold no comma, no reported skill
      holds one either. */
  lemma JobSkillsNoComma(desc: string, chunks: seq<string>, k: nat)
    requires forall j :: 0 <= j < |chunks| ==> ',' !in chunks[j]
    requires k < |ExtractSkillsFromJob(desc, chunks)|
    ensures ',' !in ExtractSkillsFromJob(desc, chunks)[k]
  {
    forall j | 0 <= j < |CommonTechSkills| ensures ',' !in CommonTechSkills[j] {
      CommonSkillNoComma(j);
    }
    ExtractWithNoComma(Lower(desc), chunks, TriggerPhrases, CommonTechSkills, k);
  }

  // ---------------------------------------------------------------------
  // A table of job descriptions
  // ---------------------------------------------------------------------

  /** One input row: the optional `Job_ID` and the `Job_Desc` text, `""` when
      the column is missing. */
  datatype JobRow = JobRow(id: Option<string>, desc: string)

  /** One output row: the id and the skills joined by commas. */
  datatype JobSkillsRow = JobSkillsRow(id: Option<string>, skills: string)

  predicate HasDescription(row: JobRow) { row.desc != "" }

  /** The output row for one description; `nounChunks` stands for the NLP
      model's noun phrases of a text. */
  function SkillsRow(row: JobRow, nounChunks: string -> seq<string>): JobSkillsRow {
    JobSkillsRow(row.id, Join(ExtractSkillsFromJob(row.desc, nounChunks(Lower(row.desc))), ","))
  }

  /** `process_job_descriptions`: one output row per row with a non-empty
      description, in input order. */
  function ProcessJobDescriptions(rows: seq<JobRow>, nounChunks: string -> seq<string>): (r: seq<JobSkillsRow>)
    ensures |r| <= |rows|
  {
    Map(Filter(rows, HasDescription), row => SkillsRow(row, nounChunks))
  }

  /** Output row `k` belongs to the `k`-th row with a description and keeps
      its id; rows without one are skipped and no others. */
  lemma ProcessJobRows(rows: seq<JobRow>, nounChunks: string -> seq<string>)
    ensures var idx := KeptIndices(rows, HasDescription, 0);
      var r := ProcessJobDescriptions(rows, nounChunks);
      && |r| == |idx|
      && forall k :: 0 <= k < |idx| ==> r[k] == SkillsRow(rows[idx[k]], nounChunks) && r[k].id == rows[idx[k]].id
  {
    FilterKept(rows, HasDescription, 0);
    assert rows[0..] == rows;
  }

  /** When the NLP model's noun phrases hold no comma and some skill is
      found, splitting a row's field at commas gives back the skill list. */
  lemma SkillsFieldSplits(row: JobRow, nounChunks: string -> seq<string>)
    requires forall j :: 0 <= j < |nounChunks(Lower(row.desc))| ==> ',' !in nounChunks(Lower(row.desc))[j]
    requires |ExtractSkillsFromJob(row.desc, nounChunks(Lower(row.desc)))| > 0
    ensures Split(SkillsRow(row, nounChunks).skills, ',') == ExtractSkillsFromJob(row.desc, nounChunks(Lower(row.desc)))
  {
    var chunks := nounChunks(Lower(row.desc));
    var skills := ExtractSkillsFromJob(row.desc, chunks);
    forall k | 0 <= k < |skills| ensures ',' !in skills[k] {
      JobSkillsNoComma(row.desc, chunks, k);
    }
    SplitJoin(skills, ',');
  }
}
