/** The dictionary-based skill extractor: a vocabulary loaded from text
    lines, one whole-word case-insensitive pattern per entry, the sorted set
    of entries found in a text, and the scan that reports every entry found
    in the word window around each word. */
module SkillExtractor {
  import opened Text
  import opened Collections
  import opened StringOrder

  // ---------------------------------------------------------------------
  // The vocabulary
  // ---------------------------------------------------------------------

  /** A line that holds something besides whitespace. */
  predicate NotBlankLine(line: string) {
    Strip(line) != ""
  }

  /** `_load_skills`: the non-blank lines, stripped and lowered, in file
      order, duplicates kept. */
  function LoadSkills(lines: seq<string>): (r: seq<string>)
    ensures forall k :: 0 <= k < |r| ==> |r[k]| > 0 && Trimmed(r[k]) && IsLowerCase(r[k])
  {
    var kept := Filter(lines, NotBlankLine);
    forall k | 0 <= k < |kept| ensures |Lower(Strip(kept[k]))| > 0 && Trimmed(Lower(Strip(kept[k]))) {
      FilterSatisfies(lines, NotBlankLine);
      LowerTrimmed(Strip(kept[k]));
    }
    forall k | 0 <= k < |kept| ensures IsLowerCase(Lower(Strip(kept[k]))) {
      LowerIsLowerCase(Strip(kept[k]));
    }
    seq(|kept|, k requires 0 <= k < |kept| => Lower(Strip(kept[k])))
  }

  /** Lowering keeps a string free of whitespace at its ends. */
  lemma LowerTrimmed(s: string)
    requires Trimmed(s)
    ensures Trimmed(Lower(s))
  {
  }

  /** Entry `k` of the vocabulary is the `k`-th non-blank line, stripped and
      lowered: blank lines are skipped and nothing else is. */
  lemma LoadSkillsLines(lines: seq<string>)
    ensures var idx := KeptIndices(lines, NotBlankLine, 0);
      && |LoadSkills(lines)| == |idx|
      && forall k :: 0 <= k < |idx| ==> LoadSkills(lines)[k] == Lower(Strip(lines[idx[k]]))
  {
    FilterKept(lines, NotBlankLine, 0);
    assert lines[0..] == lines;
  }

  /** A vocabulary that is already normalised loads unchanged. */
  lemma LoadSkillsIdempotent(lines: seq<string>)
    ensures LoadSkills(LoadSkills(lines)) == LoadSkills(lines)
  {
    var r := LoadSkills(lines);
    forall k | 0 <= k < |r| ensures NotBlankLine(r[k]) && Lower(Strip(r[k])) == r[k] {
      StripTrimmed(r[k]);
      LowerOfLowerCase(r[k]);
    }
    FilterAll(r, NotBlankLine);
  }

  // ---------------------------------------------------------------------
  // Whole-text extraction
  // ---------------------------------------------------------------------

  /** `re.search(r'\b' + re.escape(skill) + r'\b', text, re.IGNORECASE)`:
      ignoring case is matching the lowered skill in the lowered text. */
  predicate PatternFinds(skill: string, text: string) {
    HasWholeWord(Lower(text), Lower(skill))
  }

  /** The skill equals one of the lowered noun phrases. */
  predicate IsChunk(skill: string, chunks: seq<string>) {
    exists j :: 0 <= j < |chunks| && Lower(chunks[j]) == skill
  }

  /** `extract_skills`, with the noun phrases of the NLP model as input: the
      vocabulary entries that the pattern finds in the lowered text or that
      equal a lowered noun phrase, sorted, each once. */
  function ExtractSkills(skills: seq<string>, text: string, chunks: seq<string>): (r: seq<string>)
    ensures StrictlySorted(r)
    ensures forall s :: s in r <==> s in skills && (PatternFinds(s, Lower(text)) || IsChunk(s, chunks))
  {
    var p := s => PatternFinds(s, Lower(text)) || IsChunk(s, chunks);
    var found := Dedup(Filter(skills, p));
    var r := Sort(found);
    forall s ensures s in r <==> s in skills && p(s) {
      assert s in r <==> s in multiset(found);
      DedupKeeps(Filter(skills, p), s);
      FilterMember(skills, p, s);
    }
    r
  }

  /** Lowering the text first changes nothing: the search is already
      case-insensitive. */
  lemma PatternIgnoresCase(skill: string, text: string)
    ensures PatternFinds(skill, Lower(text)) == PatternFinds(skill, text)
  {
    LowerIdempotent(text);
  }

  /** The result is the only sorted list of its elements: it is what Python's
      `sorted` returns for the set of skills found. */
  lemma ExtractSkillsSorted(skills: seq<string>, text: string, chunks: seq<string>, other: seq<string>)
    requires StrictlySorted(other)
    requires forall s :: s in other <==> s in ExtractSkills(skills, text, chunks)
    ensures other == ExtractSkills(skills, text, chunks)
  {
    SortedUnique(other, ExtractSkills(skills, text, chunks));
  }

  /** Without noun phrases, exactly the entries with a whole-word occurrence
      are reported. */
  lemma PatternsAlone(skills: seq<string>, text: string, s: string)
    ensures s in ExtractSkills(skills, text, []) <==> s in skills && PatternFinds(s, text)
  {
    PatternIgnoresCase(s, text);
  }

  // ---------------------------------------------------------------------
  // Skills with context
  // ---------------------------------------------------------------------

  /** Where the window around word `i` starts. */
  function WindowStart(i: nat, k: int): nat {
    if i - k > 0 then i - k else 0
  }

  /** `words[max(0, i - k) : min(len(words), i + k + 1)]`, with Python's
      slice rules: a negative end counts from the back of the list. For
      `k >= 0` a run of consecutive words that holds word `i` and reaches `k`
      words to either side of it, or to the end of the text. A negative `k`
      gives an empty window unless `i + k + 1` is itself negative, when the
      window runs from word `i - k` to `|words| + i + k + 1` counted from
      the front. */
  function ContextWindow(words: seq<string>, i: nat, k: int): (r: seq<string>)
    requires i < |words|
    ensures k >= 0 ==> WindowStart(i, k) + |r| <= |words| && forall j :: 0 <= j < |r| ==> r[j] == words[WindowStart(i, k) + j]
    ensures k >= 0 ==> WindowStart(i, k) <= i < WindowStart(i, k) + |r| && |r| <= 2 * k + 1
    ensures k >= 0 ==> WindowStart(i, k) == 0 || WindowStart(i, k) == i - k
    ensures k >= 0 ==> WindowStart(i, k) + |r| == (if i + k + 1 < |words| then i + k + 1 else |words|)
    ensures k < 0 && i + k + 1 >= 0 ==> r == []
    ensures k < 0 && i + k + 1 < 0 ==>
      && |r| == (if i - k < |words| + i + k + 1 then |words| + i + k + 1 - (i - k) else 0)
      && forall j :: 0 <= j < |r| ==> r[j] == words[i - k + j]
  {
    var start := WindowStart(i, k);
    var stop := if i + k + 1 < |words| then i + k + 1 else |words|;
    var end := if stop >= 0 then stop else if stop + |words| >= 0 then stop + |words| else 0;
    if start < end then words[start..end] else []
  }

  /** One reported skill and the window it was found in. */
  datatype SkillContext = SkillContext(skill: string, context: string)

  /** The vocabulary entries the patterns find in one window, in vocabulary
      order. */
  function Hits(skills: seq<string>, context: string): seq<string> {
    Filter(skills, s => PatternFinds(s, context))
  }

  /** The pairs reported for one window. */
  function EntriesIn(skills: seq<string>, context: string): seq<SkillContext> {
    var hits := Hits(skills, context);
    seq(|hits|, j requires 0 <= j < |hits| => SkillContext(hits[j], Strip(context)))
  }

  /** A window yields exactly the entries the patterns find in it, each with
      the stripped window. */
  lemma EntriesInMember(skills: seq<string>, context: string, e: SkillContext)
    ensures e in EntriesIn(skills, context) <==> e.skill in skills && PatternFinds(e.skill, context) && e.context == Strip(context)
  {
    var p := s => PatternFinds(s, context);
    var hits := Filter(skills, p);
    var es := EntriesIn(skills, context);
    FilterMember(skills, p, e.skill);
    if e in es {
      var j :| 0 <= j < |es| && es[j] == e;
      assert e.skill == hits[j];
    }
    if e.skill in hits && e.context == Strip(context) {
      var j :| 0 <= j < |hits| && hits[j] == e.skill;
      assert es[j] == e;
    }
  }

  /** The window around word `i`, joined by single spaces. */
  function ContextAt(words: seq<string>, i: nat, k: int): string
    requires i < |words|
  {
    Join(ContextWindow(words, i, k), " ")
  }

  /** The pairs of each word's window, word by word. */
  function WindowGroups(skills: seq<string>, words: seq<string>, k: int): (g: seq<seq<SkillContext>>)
    ensures |g| == |words| && forall i :: 0 <= i < |words| ==> g[i] == EntriesIn(skills, ContextAt(words, i, k))
  {
    seq(|words|, i requires 0 <= i < |words| => EntriesIn(skills, ContextAt(words, i, k)))
  }

  /** `e` is an entry the patterns find in the window around word `i`,
      with that window stripped. */
  predicate FoundAround(skills: seq<string>, words: seq<string>, k: int, i: nat, e: SkillContext)
    requires i < |words|
  {
    var context := ContextAt(words, i, k);
    e.skill in skills && PatternFinds(e.skill, context) && e.context == Strip(context)
  }

  /** `e` is found around some word. */
  predicate FoundSomewhere(skills: seq<string>, words: seq<string>, k: int, e: SkillContext) {
    exists i :: 0 <= i < |words| && FoundAround(skills, words, k, i, e)
  }

  lemma GroupMember(skills: seq<string>, words: seq<string>, k: int, i: nat, e: SkillContext)
    requires i < |words|
    ensures e in WindowGroups(skills, words, k)[i] <==> FoundAround(skills, words, k, i, e)
  {
    EntriesInMember(skills, ContextAt(words, i, k), e);
  }

  lemma GroupsMember(skills: seq<string>, words: seq<string>, k: int, e: SkillContext)
    ensures e in Flatten(WindowGroups(skills, words, k)) <==> FoundSomewhere(skills, words, k, e)
  {
    var g := WindowGroups(skills, words, k);
    FlattenMember(g, e);
    if e in Flatten(g) {
      var i :| 0 <= i < |g| && e in g[i];
      GroupMember(skills, words, k, i, e);
      assert FoundAround(skills, words, k, i, e);
    }
    if exists i :: 0 <= i < |words| && FoundAround(skills, words, k, i, e) {
      var i :| 0 <= i < |words| && FoundAround(skills, words, k, i, e);
      GroupMember(skills, words, k, i, e);
      assert e in g[i];
    }
  }

  /** `extract_skills_with_context`: word by word, the entries found in the
      window around the word. A reported pair is a vocabulary entry with a
      window, around some word, in which the pattern finds it; every such
      pair is reported. */
  function SkillsWithContext(skills: seq<string>, text: string, k: int): (r: seq<SkillContext>)
    ensures forall e :: e in r <==> FoundSomewhere(skills, Words(text), k, e)
  {
    var words := Words(text);
    forall e ensures e in Flatten(WindowGroups(skills, words, k)) <==> FoundSomewhere(skills, words, k, e) {
      GroupsMember(skills, words, k, e);
    }
    Flatten(WindowGroups(skills, words, k))
  }

  /** Pair `j` of word `i` sits after the pairs of the words before it. */
  lemma GroupsOrder(skills: seq<string>, words: seq<string>, k: int, i: nat, j: nat)
    requires i < |words|
    requires j < |Hits(skills, ContextAt(words, i, k))|
    ensures var g := WindowGroups(skills, words, k);
      var context := ContextAt(words, i, k);
      |Flatten(g[..i])| + j < |Flatten(g)|
      && Flatten(g)[|Flatten(g[..i])| + j] == SkillContext(Hits(skills, context)[j], Strip(context))
  {
    var g := WindowGroups(skills, words, k);
    var context := ContextAt(words, i, k);
    assert g[i][j] == SkillContext(Hits(skills, context)[j], Strip(context));
    FlattenAt(g, i, j);
  }

  /** The pairs come word by word and, for one word, in vocabulary order:
      the pairs of word `i` follow those of the words before it. */
  lemma SkillsWithContextOrder(skills: seq<string>, text: string, k: int, i: nat, j: nat)
    requires i < |Words(text)|
    requires j < |Hits(skills, ContextAt(Words(text), i, k))|
    ensures var g := WindowGroups(skills, Words(text), k);
      var n := |Flatten(g[..i])| + j;
      var context := ContextAt(Words(text), i, k);
      n < |SkillsWithContext(skills, text, k)|
      && SkillsWithContext(skills, text, k)[n] == SkillContext(Hits(skills, context)[j], Strip(context))
  {
    GroupsOrder(skills, Words(text), k, i, j);
  }

  /** The window is already stripped: the words hold no whitespace and are
      joined by single spaces. */
  lemma ContextTrimmed(text: string, i: nat, k: int)
    requires i < |Words(text)|
    ensures Strip(ContextAt(Words(text), i, k)) == ContextAt(Words(text), i, k)
  {
    var w := ContextWindow(Words(text), i, k);
    assert forall j :: 0 <= j < |w| ==> w[j] in Words(text);
    JoinWordsTrimmed(w);
    StripTrimmed(Join(w, " "));
  }
}
