/** The rule-based field extractors of the resume parser: a three-step name
    cascade, e-mail and phone patterns, keyword skills, profile links,
    education keywords and project blocks. Each regular expression is written
    out as a matcher that tries one start index, and `Leftmost` turns it into
    `re.search`; `\w`, `\d` and the letter classes are ASCII. */
module EntityExtractor {
  import opened Wrappers
  import opened Text
  import opened Collections

  // ---------------------------------------------------------------------
  // Name
  // ---------------------------------------------------------------------

  /** A run of at least two ASCII letters. */
  predicate LetterWord(w: string) {
    |w| >= 2 && AllChars(w, IsLetter)
  }

  /** The end of the group `([A-Z][a-z]+(?:\s[A-Z][a-z]+)?)` tried at `q`
      under the case-insensitive flag, where both letter classes accept every
      ASCII letter: a letter run of at least two, then, if a whitespace
      character and two more letters follow, that second run too. */
  function NameGroupEnd(t: string, q: nat): (r: Option<nat>)
    requires q <= |t|
    ensures r.Some? ==> q + 2 <= r.value <= |t|
  {
    if q + 1 < |t| && IsLetter(t[q]) && IsLetter(t[q + 1]) then
      var e := RunEnd(t, q + 1, IsLetter);
      if e + 2 < |t| && IsSpace(t[e]) && IsLetter(t[e + 1]) && IsLetter(t[e + 2]) then
        Some(RunEnd(t, e + 2, IsLetter))
      else Some(e)
    else None
  }

  /** The captured name is one letter word, or two joined by one whitespace
      character, and the capture stops at a non-letter. */
  lemma NameGroupShape(t: string, q: nat)
    requires q <= |t| && NameGroupEnd(t, q).Some?
    ensures var n := t[q..NameGroupEnd(t, q).value];
            && (LetterWord(n) || exists k :: 2 <= k < |n| - 2 && IsSpace(n[k]) && LetterWord(n[..k]) && LetterWord(n[k + 1..]))
            && (q + |n| == |t| || !IsLetter(t[q + |n|]))
  {
    var e := RunEnd(t, q + 1, IsLetter);
    var f := NameGroupEnd(t, q).value;
    var n := t[q..f];
    LetterRun(t, q, e);
    if e + 2 < |t| && IsSpace(t[e]) && IsLetter(t[e + 1]) && IsLetter(t[e + 2]) {
      assert f == RunEnd(t, e + 2, IsLetter);
      LetterRun(t, e + 1, f);
      assert n[..e - q] == t[q..e];
      assert n[e - q + 1..] == t[e + 1..f];
      assert n[e - q] == t[e];
    } else {
      assert f == e;
    }
  }

  /** A stretch of letters cut from the text is a string of letters. */
  lemma LetterRun(t: string, i: nat, j: nat)
    requires i <= j <= |t| && forall k :: i <= k < j ==> IsLetter(t[k])
    ensures AllChars(t[i..j], IsLetter)
  {
    assert forall k :: 0 <= k < j - i ==> t[i..j][k] == t[i + k];
  }

  /** `re.match(r"(?i)^name[:\-]?\s*([A-Z][a-z]+(?:\s[A-Z][a-z]+)?)", line)`,
      returning the group: the label in any case, an optional `:` or `-`,
      blanks, then the group. The separator, the blank run and the letter
      runs are greedy, and giving any of them back cannot make the next
      element match, so one greedy pass decides the match. */
  function LabelledName(line: string): (r: Option<string>)
    ensures r.Some? ==> exists p: nat, q: nat :: LabelParse(line, p, q) && NameGroupEnd(line, q).Some? && r.value == line[q..NameGroupEnd(line, q).value]
  {
    if |line| < 4 || Lower(line[..4]) != "name" then None
    else
      var p := if |line| > 4 && (line[4] == ':' || line[4] == '-') then 5 else 4;
      var q := RunEnd(line, p, IsSpace);
      assert LabelParse(line, p, q);
      match NameGroupEnd(line, q)
      case Some(e) => Some(line[q..e])
      case None => None
  }

  /** One way `(?i)^name[:\-]?\s*` can match the start of `line` and leave
      the group to start at `q`: the label in any case, the separator taken
      (`p` is 5) or not (`p` is 4), then whitespace from `p` to `q`. */
  predicate LabelParse(line: string, p: nat, q: nat) {
    && |line| >= 4 && Lower(line[..4]) == "name"
    && (p == 4 || (p == 5 && |line| > 4 && (line[4] == ':' || line[4] == '-')))
    && p <= q <= |line| && forall k :: p <= k < q ==> IsSpace(line[k])
  }

  /** Whatever way the label and the blanks are read, a group that matches
      after them is the name `LabelledName` returns: the separator and the
      blanks cannot be read in a second way that still lets a letter follow. */
  lemma LabelledNameComplete(line: string, p: nat, q: nat)
    requires LabelParse(line, p, q) && NameGroupEnd(line, q).Some?
    ensures LabelledName(line) == Some(line[q..NameGroupEnd(line, q).value])
  {
    assert IsLetter(line[q]);
    RunEndAt(line, p, q, IsSpace);
  }

  /** The first of `xs` on which `f` succeeds, with its result. */
  function FirstSome<T, R>(xs: seq<T>, f: T -> Option<R>): (r: Option<R>)
    ensures r.Some? ==> exists i :: 0 <= i < |xs| && f(xs[i]) == r && forall j :: 0 <= j < i ==> f(xs[j]).None?
    ensures r.None? <==> forall i :: 0 <= i < |xs| ==> f(xs[i]).None?
  {
    if |xs| == 0 then None
    else if f(xs[0]).Some? then f(xs[0])
    else
      var r := FirstSome(xs[1..], f);
      assert forall i :: 0 <= i < |xs[1..]| ==> xs[1..][i] == xs[i + 1];
      assert r.Some? ==> exists i :: 0 <= i < |xs| && f(xs[i]) == r && forall j :: 0 <= j < i ==> f(xs[j]).None? by {
        if r.Some? {
          var i :| 0 <= i < |xs[1..]| && f(xs[1..][i]) == r && forall j :: 0 <= j < i ==> f(xs[1..][j]).None?;
          assert f(xs[i + 1]) == r;
          assert forall j :: 0 <= j < i + 1 ==> f(xs[j]).None? by {
            forall j | 0 <= j < i + 1 ensures f(xs[j]).None? {
              if j > 0 {
                assert xs[j] == xs[1..][j - 1];
              }
            }
          }
        }
      }
      r
  }

  /** The first of the first `n` entries of `xs` on which `f` succeeds. */
  function FirstSomeUpTo<T, R>(xs: seq<T>, n: nat, f: T -> Option<R>): (r: Option<R>)
    ensures r.Some? ==> exists i :: 0 <= i < |xs| && i < n && f(xs[i]) == r && forall j :: 0 <= j < i ==> f(xs[j]).None?
    ensures r.None? <==> forall i :: 0 <= i < |xs| && i < n ==> f(xs[i]).None?
  {
    var head := if |xs| <= n then xs else xs[..n];
    assert forall i :: 0 <= i < |head| ==> head[i] == xs[i];
    FirstSome(head, f)
  }

  /** The labelled-name step: the first of the first five lines of the
      stripped text that is a labelled name line. */
  function LabelledNameIn(text: string): Option<string> {
    FirstSomeUpTo(Split(Strip(text), '\n'), 5, LabelledName)
  }

  /** The regular expression's own reading of a pair at `i` with the given
      ends, without any greediness. */
  predicate PairMatch(t: string, i: nat, e1: nat, s2: nat, e2: nat, first: char -> bool, rest: char -> bool) {
    && i + 2 <= e1 < s2 && s2 + 2 <= e2 <= |t|
    && IsBoundary(t, i) && IsBoundary(t, e2)
    && first(t[i]) && (forall k :: i < k < e1 ==> rest(t[k]))
    && (forall k :: e1 <= k < s2 ==> IsSpace(t[k]))
    && first(t[s2]) && (forall k :: s2 < k < e2 ==> rest(t[k]))
  }

  /** Two words separated by a whitespace run, the whole guarded by `\b`,
      tried at `i`: a word is one `first` character followed by a run of at
      least one `rest` character. Returns the ends of the first word, the
      blank run and the second word. */
  function WordPairAt(t: string, i: nat, first: char -> bool, rest: char -> bool): (r: Option<(nat, nat, nat)>)
    ensures r.Some? ==> PairMatch(t, i, r.value.0, r.value.1, r.value.2, first, rest)
  {
    if IsBoundary(t, i) && i + 1 < |t| && first(t[i]) && rest(t[i + 1]) then
      var e1 := RunEnd(t, i + 1, rest);
      var s2 := RunEnd(t, e1, IsSpace);
      if s2 > e1 && s2 + 1 < |t| && first(t[s2]) && rest(t[s2 + 1]) then
        var e2 := RunEnd(t, s2 + 1, rest);
        if IsBoundary(t, e2) then Some((e1, s2, e2)) else None
      else None
    else None
  }

  /** The greedy matcher finds exactly the regular expression's matches: when
      the word characters are never blank and the continuation characters
      are word characters, the match at `i`, if any, is unique. */
  lemma WordPairAtIff(t: string, i: nat, first: char -> bool, rest: char -> bool, e1: nat, s2: nat, e2: nat)
    requires forall c :: first(c) ==> !IsSpace(c)
    requires forall c :: rest(c) ==> !IsSpace(c) && IsWordChar(c)
    ensures WordPairAt(t, i, first, rest) == Some((e1, s2, e2)) <==> PairMatch(t, i, e1, s2, e2, first, rest)
  {
    if PairMatch(t, i, e1, s2, e2, first, rest) {
      PairMatchFound(t, i, first, rest, e1, s2, e2);
    }
  }

  /** Each of the three runs of a pair match ends where `RunEnd` stops. */
  lemma PairMatchFound(t: string, i: nat, first: char -> bool, rest: char -> bool, e1: nat, s2: nat, e2: nat)
    requires forall c :: first(c) ==> !IsSpace(c)
    requires forall c :: rest(c) ==> !IsSpace(c) && IsWordChar(c)
    requires PairMatch(t, i, e1, s2, e2, first, rest)
    ensures WordPairAt(t, i, first, rest) == Some((e1, s2, e2))
  {
    PairRunsEnd(t, i, first, rest, e1, s2, e2);
    WordPairAtFrom(t, i, first, rest, e1, s2, e2);
  }

  lemma PairRunsEnd(t: string, i: nat, first: char -> bool, rest: char -> bool, e1: nat, s2: nat, e2: nat)
    requires forall c :: first(c) ==> !IsSpace(c)
    requires forall c :: rest(c) ==> !IsSpace(c) && IsWordChar(c)
    requires PairMatch(t, i, e1, s2, e2, first, rest)
    ensures RunEnd(t, i + 1, rest) == e1 && RunEnd(t, e1, IsSpace) == s2 && RunEnd(t, s2 + 1, rest) == e2
  {
    assert IsSpace(t[e1]) && !rest(t[e1]);
    RunEndAt(t, i + 1, e1, rest);
    assert first(t[s2]) && !IsSpace(t[s2]);
    RunEndAt(t, e1, s2, IsSpace);
    assert rest(t[e2 - 1]);
    BoundaryStops(t, e2, rest);
    RunEndAt(t, s2 + 1, e2, rest);
  }

  /** The matcher's steps, once the three runs are known to end at `e1`,
      `s2` and `e2`. */
  lemma WordPairAtFrom(t: string, i: nat, first: char -> bool, rest: char -> bool, e1: nat, s2: nat, e2: nat)
    requires PairMatch(t, i, e1, s2, e2, first, rest)
    requires RunEnd(t, i + 1, rest) == e1 && RunEnd(t, e1, IsSpace) == s2 && RunEnd(t, s2 + 1, rest) == e2
    ensures WordPairAt(t, i, first, rest) == Some((e1, s2, e2))
  {
    assert IsBoundary(t, i) && i + 1 < |t| && first(t[i]) && rest(t[i + 1]);
    assert s2 > e1 && s2 + 1 < |t| && first(t[s2]) && rest(t[s2 + 1]);
  }

  /** A run of word characters that ends at a word boundary cannot go on. */
  lemma BoundaryStops(t: string, e: nat, rest: char -> bool)
    requires 0 < e <= |t| && IsBoundary(t, e) && rest(t[e - 1])
    requires forall c :: rest(c) ==> IsWordChar(c)
    ensures e == |t| || !rest(t[e])
  {
  }

  /** `str.title()` of a word of letters: the first letter upper-case, the
      others lower-case. */
  function Title(w: string): (r: string)
    ensures |r| == |w|
    ensures |w| > 0 ==> r[0] == UpperChar(w[0]) && !IsLower(r[0])
    ensures forall k :: 0 < k < |w| ==> r[k] == LowerChar(w[k]) && !IsUpper(r[k])
  {
    if |w| == 0 then w else [UpperChar(w[0])] + Lower(w[1..])
  }

  function PairMatcher(first: char -> bool, rest: char -> bool): (string, nat) -> Option<(nat, nat, nat)> {
    (t, i) => WordPairAt(t, i, first, rest)
  }

  /** `re.search` for the pair pattern. */
  function PairSearch(text: string, first: char -> bool, rest: char -> bool): Option<(nat, (nat, nat, nat))> {
    Leftmost(text, 0, PairMatcher(first, rest))
  }

  /** The search fails exactly when the pattern matches nowhere, and a hit is
      a match with no match starting before it. */
  lemma PairSearchIff(text: string, first: char -> bool, rest: char -> bool)
    requires forall c :: first(c) ==> !IsSpace(c)
    requires forall c :: rest(c) ==> !IsSpace(c) && IsWordChar(c)
    ensures PairSearch(text, first, rest).None? <==> forall i: nat, e1: nat, s2: nat, e2: nat :: !PairMatch(text, i, e1, s2, e2, first, rest)
    ensures PairSearch(text, first, rest).Some? ==>
              var (i, (e1, s2, e2)) := PairSearch(text, first, rest).value;
              && PairMatch(text, i, e1, s2, e2, first, rest)
              && forall j: nat, f1: nat, t2: nat, f2: nat :: j < i ==> !PairMatch(text, j, f1, t2, f2, first, rest)
  {
    var r := PairSearch(text, first, rest);
    forall j: nat, f1: nat, t2: nat, f2: nat | PairMatch(text, j, f1, t2, f2, first, rest)
      ensures r.Some? && r.value.0 <= j
    {
      WordPairAtIff(text, j, first, rest, f1, t2, f2);
      LeftmostFinds(text, PairMatcher(first, rest), j);
    }
  }

  /** The letters of both words of a pair match. */
  lemma PairWords(t: string, i: nat, e1: nat, s2: nat, e2: nat, first: char -> bool, rest: char -> bool)
    requires PairMatch(t, i, e1, s2, e2, first, rest)
    requires forall c :: first(c) ==> IsLetter(c)
    requires forall c :: rest(c) ==> IsLetter(c)
    ensures LetterWord(t[i..e1]) && LetterWord(t[s2..e2])
  {
    assert forall k :: 0 <= k < e1 - i ==> t[i..e1][k] == t[i + k];
    assert forall k :: 0 <= k < e2 - s2 ==> t[s2..e2][k] == t[s2 + k];
  }

  /** `\b([A-Z][a-z]+)\s+([A-Z][a-z]+)\b`: the first Title-Case pair,
      joined by one space. */
  function TitlePair(text: string): (r: Option<string>)
  {
    match PairSearch(text, IsUpper, IsLower)
    case Some((i, (e1, s2, e2))) => Some(text[i..e1] + " " + text[s2..e2])
    case None => None
  }

  /** `\b([A-Z]{2,})\s+([A-Z]{2,})\b`: the first pair of capitalised
      words, each title-cased, joined by one space. */
  function CapsPair(text: string): (r: Option<string>)
  {
    match PairSearch(text, IsUpper, IsUpper)
    case Some((i, (e1, s2, e2))) => Some(Title(text[i..e1]) + " " + Title(text[s2..e2]))
    case None => None
  }

  /** `extract_name`: the labelled line, else the Title-Case pair, else the
      capitalised pair. */
  function ExtractName(text: string): (r: Option<string>)
    ensures LabelledNameIn(text).Some? ==> r == LabelledNameIn(text)
    ensures LabelledNameIn(text).None? && TitlePair(text).Some? ==> r == TitlePair(text)
    ensures LabelledNameIn(text).None? && TitlePair(text).None? ==> r == CapsPair(text)
    ensures r.None? <==> LabelledNameIn(text).None? && TitlePair(text).None? && CapsPair(text).None?
  {
    match LabelledNameIn(text)
    case Some(n) => Some(n)
    case None =>
      match TitlePair(text)
      case Some(n) => Some(n)
      case None => CapsPair(text)
  }

  /** Two letter words joined by one space. */
  predicate TwoWords(s: string) {
    exists k :: 0 <= k < |s| && s[k] == ' ' && LetterWord(s[..k]) && LetterWord(s[k + 1..])
  }

  lemma TwoWordsJoin(a: string, b: string)
    requires LetterWord(a) && LetterWord(b)
    ensures TwoWords(a + " " + b)
  {
    var s := a + " " + b;
    assert s[..|a|] == a && s[|a| + 1..] == b;
  }

  lemma TitleLetterWord(w: string)
    requires LetterWord(w)
    ensures LetterWord(Title(w))
  {
  }

  /** The Title-Case step returns two words of the text, each an upper-case
      letter followed by lower-case letters, joined by one space. */
  lemma TitlePairShape(text: string)
    requires TitlePair(text).Some?
    ensures TwoWords(TitlePair(text).value)
  {
    var (i, (e1, s2, e2)) := PairSearch(text, IsUpper, IsLower).value;
    PairWords(text, i, e1, s2, e2, IsUpper, IsLower);
    TwoWordsJoin(text[i..e1], text[s2..e2]);
  }

  /** The capitalised step returns two title-cased words joined by one
      space. */
  lemma CapsPairShape(text: string)
    requires CapsPair(text).Some?
    ensures TwoWords(CapsPair(text).value)
  {
    var (i, (e1, s2, e2)) := PairSearch(text, IsUpper, IsUpper).value;
    PairWords(text, i, e1, s2, e2, IsUpper, IsUpper);
    TitleLetterWord(text[i..e1]);
    TitleLetterWord(text[s2..e2]);
    TwoWordsJoin(Title(text[i..e1]), Title(text[s2..e2]));
  }

  /** When no line is labelled, the name is two letter words joined by one
      space. */
  lemma UnlabelledNameShape(text: string)
    requires LabelledNameIn(text).None? && ExtractName(text).Some?
    ensures TwoWords(ExtractName(text).value)
  {
    if TitlePair(text).Some? {
      TitlePairShape(text);
    } else {
      CapsPairShape(text);
    }
  }

  // ---------------------------------------------------------------------
  // E-mail
  // ---------------------------------------------------------------------

  /** `[a-zA-Z0-9._%+-]`. */
  predicate IsLocalChar(c: char) { IsAlnum(c) || c == '.' || c == '_' || c == '%' || c == '+' || c == '-' }

  /** `[a-zA-Z0-9.-]`. */
  predicate IsDomainChar(c: char) { IsAlnum(c) || c == '.' || c == '-' }

  predicate NotBlank(c: char) { c != ' ' }

  /** `s.replace(" ", "")`. */
  function RemoveBlanks(s: string): (r: string)
    ensures ' ' !in r
  {
    FilterSatisfies(s, NotBlank);
    Filter(s, NotBlank)
  }

  /** The tail `[\s]*\.[a-zA-Z]{2,}` of the e-mail pattern, with the domain
      run `[a-zA-Z0-9.-]+` ending at `d`, then, on failure, at `d - 1`, down
      to `lo + 1`: the backtracking of the greedy domain run. Returns the
      index of the dot and the end of the match. */
  function TldFrom(t: string, lo: nat, d: nat): (r: Option<(nat, nat)>)
    requires lo < d <= |t|
    ensures r.Some? ==> var (q, e) := r.value;
            && lo < q && q + 3 <= e <= |t| && t[q] == '.'
            && (forall k :: q < k < e ==> IsLetter(t[k]))
            && (e == |t| || !IsLetter(t[e]))
    decreases d
  {
    var q := RunEnd(t, d, IsSpace);
    if q < |t| && t[q] == '.' && RunEnd(t, q + 1, IsLetter) >= q + 3 then Some((q, RunEnd(t, q + 1, IsLetter)))
    else if d - 1 > lo then TldFrom(t, lo, d - 1)
    else None
  }

  /** `[a-zA-Z0-9._%+-]+@[\s]*[a-zA-Z0-9.-]+[\s]*\.[a-zA-Z]{2,}` tried at
      `i`: the local run is greedy and must be followed by `@` (a shorter run
      would leave a local character where `@` is needed); the blanks after
      `@` are greedy too. Returns the index of `@`, of the final dot and the
      end of the match. */
  function EmailAt(t: string, i: nat): (r: Option<(nat, nat, nat)>)
    ensures r.Some? ==> var (a, q, e) := r.value;
            && i < a < q && q + 3 <= e <= |t|
            && t[a] == '@' && t[q] == '.'
            && (forall k :: i <= k < a ==> IsLocalChar(t[k]))
            && (forall k :: q < k < e ==> IsLetter(t[k]))
            && (e == |t| || !IsLetter(t[e]))
  {
    if i < |t| && IsLocalChar(t[i]) then
      var a := RunEnd(t, i, IsLocalChar);
      if a < |t| && t[a] == '@' then
        match DomainTail(t, a)
        case Some((q, e)) => Some((a, q, e))
        case None => None
      else None
    else None
  }

  /** `[\s]*[a-zA-Z0-9.-]+[\s]*\.[a-zA-Z]{2,}` after the `@` at `a`: greedy
      blanks up to `lo`, the greedy domain run up to `hi`, then the
      backtracking for the tail. Returns the index of the final dot and the
      end of the match. */
  function DomainTail(t: string, a: nat): (r: Option<(nat, nat)>)
    requires a < |t|
    ensures r.Some? ==> var (q, e) := r.value;
            && a < q && q + 3 <= e <= |t| && t[q] == '.'
            && (forall k :: q < k < e ==> IsLetter(t[k]))
            && (e == |t| || !IsLetter(t[e]))
  {
    var lo := RunEnd(t, a + 1, IsSpace);
    var hi := RunEnd(t, lo, IsDomainChar);
    if hi > lo then TldFrom(t, lo, hi) else None
  }

  function EmailMatcher(): (string, nat) -> Option<(nat, nat, nat)> {
    (t, i) => EmailAt(t, i)
  }

  /** `re.search` for the e-mail pattern. */
  function EmailSearch(text: string): Option<(nat, (nat, nat, nat))> {
    Leftmost(text, 0, EmailMatcher())
  }

  /** `extract_email`: the first match with its blanks removed, then
      stripped. */
  function ExtractEmail(text: string): Option<string> {
    var found := EmailSearch(text);
    if found.None? then None else Some(Strip(RemoveBlanks(text[found.value.0..found.value.1.2])))
  }

  /** One way the e-mail pattern can match from `i`, read part by part
      with no greediness: the local run up to the `@` at `a`, whitespace up
      to `b`, the domain run up to `d`, whitespace up to the dot at `q`, and
      at least two letters up to `e`. */
  predicate EmailMatch(t: string, i: nat, a: nat, b: nat, d: nat, q: nat, e: nat) {
    && i < a && a < b < d <= q && q + 3 <= e <= |t|
    && (forall k :: i <= k < a ==> IsLocalChar(t[k])) && t[a] == '@'
    && (forall k :: a < k < b ==> IsSpace(t[k]))
    && (forall k :: b <= k < d ==> IsDomainChar(t[k]))
    && (forall k :: d <= k < q ==> IsSpace(t[k])) && t[q] == '.'
    && (forall k :: q < k < e ==> IsLetter(t[k]))
  }

  /** Whitespace from `a` up to, not including, `b`. */
  predicate Blanks(t: string, a: nat, b: nat) {
    forall k :: a <= k < b && k < |t| ==> IsSpace(t[k])
  }

  /** The e-mail pattern matches somewhere from `i` on. */
  ghost predicate EmailMatchesAt(t: string, i: nat) {
    exists a: nat, b: nat, d: nat, q: nat, e: nat :: EmailMatch(t, i, a, b, d, q, e)
  }

  /** The e-mail pattern has a reading from `i` that ends at `e`. */
  ghost predicate EmailReadsTo(t: string, i: nat, e: nat) {
    exists a: nat, b: nat, d: nat, q: nat :: EmailMatch(t, i, a, b, d, q, e)
  }

  /** The longest reading of the e-mail pattern from `i` ends at `e`. */
  ghost predicate EmailLongest(t: string, i: nat, e: nat) {
    EmailReadsTo(t, i, e) && forall e': nat :: EmailReadsTo(t, i, e') ==> e' <= e
  }

  /** A dot and at least two letters follow the blanks after `d`: the
      backtracking stops there. */
  predicate TldStops(t: string, d: nat)
    requires d <= |t|
  {
    var q := RunEnd(t, d, IsSpace);
    q < |t| && t[q] == '.' && RunEnd(t, q + 1, IsLetter) >= q + 3
  }

  lemma TldFromStep(t: string, lo: nat, d: nat)
    requires lo < d <= |t|
    ensures TldStops(t, d) ==> TldFrom(t, lo, d) == Some((RunEnd(t, d, IsSpace), RunEnd(t, RunEnd(t, d, IsSpace) + 1, IsLetter)))
    ensures !TldStops(t, d) ==> TldFrom(t, lo, d) == if d - 1 > lo then TldFrom(t, lo, d - 1) else None
  {
  }

  /** When the domain run can end at `d` and a dot and two letters follow,
      the backtracking from any longer run end `hi` reaches a tail. */
  lemma {:induction false} TldFromComplete(t: string, lo: nat, hi: nat, d: nat, q: nat, e: nat)
    requires lo < d <= hi <= |t| && d <= q && q + 3 <= e <= |t|
    requires (forall k :: d <= k < q ==> IsSpace(t[k])) && t[q] == '.'
    requires forall k :: q < k < e ==> IsLetter(t[k])
    ensures TldFrom(t, lo, hi).Some?
    decreases hi
  {
    TldFromStep(t, lo, hi);
    if hi == d {
      TldFromHere(t, lo, d, q, e);
    } else if !TldStops(t, hi) {
      TldFromComplete(t, lo, hi - 1, d, q, e);
    }
  }

  /** When the domain run really runs up to `hi`, the tail the backtracking
      finds is never shorter than one a shorter domain run allows: the
      regular expression gives back as little of the domain as it can. */
  lemma {:induction false} TldFromReaches(t: string, lo: nat, hi: nat, d: nat, q: nat, e: nat)
    requires lo < d <= hi <= |t| && d <= q && q + 3 <= e <= |t|
    requires (forall k :: d <= k < q ==> IsSpace(t[k])) && t[q] == '.'
    requires forall k :: q < k < e ==> IsLetter(t[k])
    requires forall k :: d <= k < hi ==> !IsSpace(t[k])
    requires TldFrom(t, lo, hi).Some?
    ensures TldFrom(t, lo, hi).value.0 >= q && TldFrom(t, lo, hi).value.1 >= e
    decreases hi
  {
    if hi == d {
      TldFromAtDomainEnd(t, lo, d, q, e);
    } else {
      assert q == d by {
        assert !IsSpace(t[d]);
      }
      if TldStops(t, hi) {
        TldFromAtRunEnd(t, lo, hi, q, e);
      } else {
        TldFromStep(t, lo, hi);
        TldFromReaches(t, lo, hi - 1, d, q, e);
      }
    }
  }

  lemma TldFromAtDomainEnd(t: string, lo: nat, d: nat, q: nat, e: nat)
    requires lo < d <= q && q + 3 <= e <= |t|
    requires (forall k :: d <= k < q ==> IsSpace(t[k])) && t[q] == '.'
    requires forall k :: q < k < e ==> IsLetter(t[k])
    ensures TldFrom(t, lo, d).Some? && TldFrom(t, lo, d).value.0 >= q && TldFrom(t, lo, d).value.1 >= e
  {
    TldFromLetters(t, d, q, e);
    TldFromStep(t, lo, d);
  }

  lemma TldFromAtRunEnd(t: string, lo: nat, hi: nat, q: nat, e: nat)
    requires lo < hi <= |t| && q < hi && q + 3 <= e <= |t| && TldStops(t, hi)
    requires forall k :: q < k < e ==> IsLetter(t[k])
    ensures TldFrom(t, lo, hi).Some? && TldFrom(t, lo, hi).value.0 >= e && TldFrom(t, lo, hi).value.1 >= e
  {
    TldFromPast(t, hi, q, e);
    TldFromStep(t, lo, hi);
  }

  /** Stopping where the shorter reading's domain ends keeps its dot and
      takes all the letters after it. */
  lemma TldFromLetters(t: string, d: nat, q: nat, e: nat)
    requires d <= q && q + 3 <= e <= |t|
    requires (forall k :: d <= k < q ==> IsSpace(t[k])) && t[q] == '.'
    requires forall k :: q < k < e ==> IsLetter(t[k])
    ensures RunEnd(t, d, IsSpace) == q && RunEnd(t, q + 1, IsLetter) >= e
  {
    RunEndAt(t, d, q, IsSpace);
    RunEndCovers(t, q + 1, e, IsLetter);
  }

  /** Stopping further on than a reading's domain end `q` puts the dot past
      that reading's letters, which end at `e`. */
  lemma TldFromPast(t: string, hi: nat, q: nat, e: nat)
    requires q < hi <= |t| && q + 3 <= e <= |t| && TldStops(t, hi)
    requires forall k :: q < k < e ==> IsLetter(t[k])
    ensures RunEnd(t, hi, IsSpace) >= e && RunEnd(t, RunEnd(t, hi, IsSpace) + 1, IsLetter) >= e
  {
    var q2 := RunEnd(t, hi, IsSpace);
    assert t[q2] == '.' && !IsLetter(t[q2]);
  }

  /** The backtracking stops at once when the domain run ends at `d`. */
  lemma TldFromHere(t: string, lo: nat, d: nat, q: nat, e: nat)
    requires lo < d <= q && q + 3 <= e <= |t|
    requires Blanks(t, d, q) && t[q] == '.'
    requires forall k :: q < k < e ==> IsLetter(t[k])
    ensures TldFrom(t, lo, d).Some?
  {
    RunEndAt(t, d, q, IsSpace);
    RunEndCovers(t, q + 1, e, IsLetter);
  }

  /** Blanks run from some `d` with `lo < d <= hi` up to `q`. */
  predicate BlanksBefore(t: string, lo: nat, hi: nat, q: nat) {
    exists d :: lo < d <= hi && d <= q && Blanks(t, d, q)
  }

  /** The tail the backtracking finds follows a domain run that ends at some
      `d` no later than where the backtracking started. */
  lemma {:induction false} TldFromSound(t: string, lo: nat, hi: nat)
    requires lo < hi <= |t|
    requires TldFrom(t, lo, hi).Some?
    ensures BlanksBefore(t, lo, hi, TldFrom(t, lo, hi).value.0)
    decreases hi
  {
    TldFromStep(t, lo, hi);
    var q := TldFrom(t, lo, hi).value.0;
    if TldStops(t, hi) {
      BlanksBeforeAt(t, lo, hi, hi, q);
    } else {
      TldFromSound(t, lo, hi - 1);
      BlanksBeforeWiden(t, lo, hi - 1, q);
    }
  }

  lemma BlanksBeforeAt(t: string, lo: nat, hi: nat, d: nat, q: nat)
    requires lo < d <= hi && d <= q && Blanks(t, d, q)
    ensures BlanksBefore(t, lo, hi, q)
  {
  }

  lemma BlanksBeforeWiden(t: string, lo: nat, hi: nat, q: nat)
    requires BlanksBefore(t, lo, hi, q)
    ensures BlanksBefore(t, lo, hi + 1, q)
  {
    var d :| lo < d <= hi && d <= q && Blanks(t, d, q);
    BlanksBeforeAt(t, lo, hi + 1, d, q);
  }

  /** `EmailAt` succeeds exactly where the pattern has a reading, and its
      `@` is the one every reading uses. */
  lemma EmailAtComplete(t: string, i: nat, a: nat, b: nat, d: nat, q: nat, e: nat)
    requires EmailMatch(t, i, a, b, d, q, e)
    ensures EmailAt(t, i).Some? && EmailAt(t, i).value.0 == a
    ensures EmailAt(t, i).value.1 >= q && EmailAt(t, i).value.2 >= e
  {
    RunEndAt(t, i, a, IsLocalChar);
    RunEndAt(t, a + 1, b, IsSpace);
    var hi := RunEnd(t, b, IsDomainChar);
    DomainReaches(t, b, hi, d, q, e);
    EmailAtFrom(t, i, a, b, hi);
  }

  /** After the greedy domain run from `b`, the backtracking finds a tail
      that reaches at least as far as a reading whose domain ends at `d`. */
  lemma DomainReaches(t: string, b: nat, hi: nat, d: nat, q: nat, e: nat)
    requires b < d <= q && q + 3 <= e <= |t| && hi == RunEnd(t, b, IsDomainChar)
    requires forall k :: b <= k < d ==> IsDomainChar(t[k])
    requires (forall k :: d <= k < q ==> IsSpace(t[k])) && t[q] == '.'
    requires forall k :: q < k < e ==> IsLetter(t[k])
    ensures b < hi && TldFrom(t, b, hi).Some?
    ensures TldFrom(t, b, hi).value.0 >= q && TldFrom(t, b, hi).value.1 >= e
  {
    RunEndCovers(t, b, d, IsDomainChar);
    TldFromComplete(t, b, hi, d, q, e);
    DomainNotSpace(t, b, hi);
    TldFromReaches(t, b, hi, d, q, e);
  }

  /** The domain run holds no whitespace. */
  lemma DomainNotSpace(t: string, b: nat, hi: nat)
    requires b <= hi <= |t| && hi == RunEnd(t, b, IsDomainChar)
    ensures forall k :: b <= k < hi ==> !IsSpace(t[k])
  {
  }

  /** `EmailAt` goes on to the backtracking once the local run, the `@`
      and the blanks end where the lemma above puts them. */
  lemma EmailAtFrom(t: string, i: nat, a: nat, b: nat, hi: nat)
    requires i < a < b <= hi <= |t| && b < |t|
    requires RunEnd(t, i, IsLocalChar) == a && t[a] == '@' && IsLocalChar(t[i])
    requires RunEnd(t, a + 1, IsSpace) == b && RunEnd(t, b, IsDomainChar) == hi && b < hi
    requires TldFrom(t, b, hi).Some?
    ensures EmailAt(t, i) == Some((a, TldFrom(t, b, hi).value.0, TldFrom(t, b, hi).value.1))
  {
    assert DomainTail(t, a) == TldFrom(t, b, hi);
  }

  lemma EmailAtSound(t: string, i: nat)
    requires EmailAt(t, i).Some?
    ensures EmailMatchesAt(t, i) && EmailReadsTo(t, i, EmailAt(t, i).value.2)
  {
    var (a, q, e) := EmailAt(t, i).value;
    var lo := RunEnd(t, a + 1, IsSpace);
    var hi := RunEnd(t, lo, IsDomainChar);
    EmailAtParts(t, i);
    DomainTailParts(t, a);
    TldFromSound(t, lo, hi);
    var d :| lo < d <= hi && d <= q && Blanks(t, d, q);
    assert EmailMatch(t, i, a, lo, d, q, e);
  }

  /** How `EmailAt` found its match: the local run ends at the `@`, and the
      rest after it gave the tail. */
  lemma EmailAtParts(t: string, i: nat)
    requires EmailAt(t, i).Some?
    ensures var (a, q, e) := EmailAt(t, i).value;
            DomainTail(t, a) == Some((q, e))
  {
  }

  /** How `DomainTail` found the tail: the blanks end at `lo`, the domain run
      at `hi`, and the backtracking from `hi` gave it. */
  lemma DomainTailParts(t: string, a: nat)
    requires a < |t| && DomainTail(t, a).Some?
    ensures var lo := RunEnd(t, a + 1, IsSpace);
            var hi := RunEnd(t, lo, IsDomainChar);
            lo < hi && TldFrom(t, lo, hi) == DomainTail(t, a)
  {
  }

  lemma EmailAtIff(t: string, i: nat)
    ensures EmailAt(t, i).Some? <==> EmailMatchesAt(t, i)
  {
    if EmailAt(t, i).Some? {
      EmailAtSound(t, i);
    }
    if EmailMatchesAt(t, i) {
      var a: nat, b: nat, d: nat, q: nat, e: nat :| EmailMatch(t, i, a, b, d, q, e);
      EmailAtComplete(t, i, a, b, d, q, e);
    }
  }

  /** There is an address exactly when the pattern has a reading somewhere,
      and it is cut from the leftmost place where it has one. */
  lemma EmailFound(text: string)
    ensures ExtractEmail(text).None? <==> forall i :: 0 <= i <= |text| ==> !EmailMatchesAt(text, i)
    ensures EmailSearch(text).Some? ==>
              && EmailMatchesAt(text, EmailSearch(text).value.0)
              && forall k :: 0 <= k < EmailSearch(text).value.0 ==> !EmailMatchesAt(text, k)
    ensures EmailSearch(text).Some? ==> EmailLongest(text, EmailSearch(text).value.0, EmailSearch(text).value.1.2)
  {
    EmailSearchIff(text);
    if EmailSearch(text).Some? {
      EmailSearchFirst(text);
      EmailSearchLongest(text);
    }
  }

  /** The address the search cuts out is the longest reading of the pattern
      from its start. */
  lemma EmailSearchLongest(text: string)
    requires EmailSearch(text).Some?
    ensures EmailLongest(text, EmailSearch(text).value.0, EmailSearch(text).value.1.2)
  {
    var i := EmailSearch(text).value.0;
    assert EmailMatcher()(text, i) == EmailAt(text, i);
    EmailAtLongest(text, i);
  }

  /** What `EmailAt` finds is the longest reading from `i`. */
  lemma EmailAtLongest(t: string, i: nat)
    requires EmailAt(t, i).Some?
    ensures EmailLongest(t, i, EmailAt(t, i).value.2)
  {
    EmailAtSound(t, i);
    forall e': nat | EmailReadsTo(t, i, e')
      ensures e' <= EmailAt(t, i).value.2
    {
      var a: nat, b: nat, d: nat, q: nat :| EmailMatch(t, i, a, b, d, q, e');
      EmailAtComplete(t, i, a, b, d, q, e');
    }
  }

  /** The search fails exactly when the pattern has no reading. */
  lemma EmailSearchIff(text: string)
    ensures EmailSearch(text).None? <==> forall i :: 0 <= i <= |text| ==> !EmailMatchesAt(text, i)
  {
    assert forall i: nat :: EmailMatcher()(text, i) == EmailAt(text, i);
    forall i: nat
      ensures EmailAt(text, i).Some? <==> EmailMatchesAt(text, i)
    {
      EmailAtIff(text, i);
    }
  }

  /** The search stops at the leftmost reading. */
  lemma EmailSearchFirst(text: string)
    requires EmailSearch(text).Some?
    ensures EmailMatchesAt(text, EmailSearch(text).value.0)
    ensures forall k :: 0 <= k < EmailSearch(text).value.0 ==> !EmailMatchesAt(text, k)
  {
    assert forall i: nat :: EmailMatcher()(text, i) == EmailAt(text, i);
    forall i: nat | i <= EmailSearch(text).value.0
      ensures EmailAt(text, i).Some? <==> EmailMatchesAt(text, i)
    {
      EmailAtIff(text, i);
    }
  }

  /** An address ends in a dot followed by at least two letters. */
  predicate EndsWithDomain(s: string) {
    exists q :: 0 <= q && q + 3 <= |s| && s[q] == '.' && forall k :: q < k < |s| ==> IsLetter(s[k])
  }

  /** Removing blanks from a piece that has none at its end keeps that end. */
  lemma RemoveBlanksSplit(s: string, q: nat)
    requires q <= |s| && forall k :: q <= k < |s| ==> s[k] != ' '
    ensures RemoveBlanks(s) == RemoveBlanks(s[..q]) + s[q..]
  {
    assert s == s[..q] + s[q..];
    FilterAppend(s[..q], s[q..], NotBlank);
    FilterAll(s[q..], NotBlank);
  }

  /** A match keeps its first character, its `@` and its final dot and
      letters when its blanks are removed. */
  lemma BlanklessShape(m: string, a: nat, q: nat)
    requires a < q && q + 3 <= |m| && m[a] == '@' && m[q] == '.' && m[0] != ' '
    requires forall k :: q < k < |m| ==> IsLetter(m[k])
    ensures var s := RemoveBlanks(m);
            '@' in s && |s| > 0 && s[0] == m[0] && s[|s| - 1] == m[|m| - 1] && EndsWithDomain(s)
  {
    RemoveBlanksSplit(m, q);
    var head := RemoveBlanks(m[..q]);
    assert m[..q] == [m[0]] + m[1..q];
    FilterAppend([m[0]], m[1..q], NotBlank);
    assert m[..q][a] == '@';
    FilterMember(m[..q], NotBlank, '@');
    var s := RemoveBlanks(m);
    assert s[|head|] == '.';
    assert forall k :: |head| < k < |s| ==> s[k] == m[q + k - |head|];
  }

  /** The shape of a matched address after its blanks are removed and it is
      stripped: stripping finds no whitespace at either end. */
  lemma CleanedMatchShape(m: string, a: nat, q: nat)
    requires a < q && q + 3 <= |m| && m[a] == '@' && m[q] == '.'
    requires IsLocalChar(m[0])
    requires forall k :: q < k < |m| ==> IsLetter(m[k])
    ensures var s := Strip(RemoveBlanks(m));
            '@' in s && ' ' !in s && |s| > 0 && IsLocalChar(s[0]) && EndsWithDomain(s)
  {
    BlanklessShape(m, a, q);
    var s := RemoveBlanks(m);
    assert IsLetter(m[|m| - 1]);
    assert Trimmed(s);
    StripTrimmed(s);
  }


  /** The address cut from a match at `i`. */
  lemma AddressShape(t: string, i: nat, a: nat, q: nat, e: nat)
    requires EmailAt(t, i) == Some((a, q, e))
    ensures var s := Strip(RemoveBlanks(t[i..e]));
            '@' in s && ' ' !in s && |s| > 0 && IsLocalChar(s[0]) && EndsWithDomain(s)
  {
    var m := t[i..e];
    assert forall k :: q - i < k < |m| ==> m[k] == t[i + k];
    assert m[a - i] == '@' && m[q - i] == '.' && IsLocalChar(m[0]);
    CleanedMatchShape(m, a - i, q - i);
  }

  /** The address contains `@`, starts with a local character, has no blank
      and ends in a dot followed by at least two letters; `strip()` leaves it
      as it is. Whitespace other than blanks inside the match survives. */
  lemma EmailShape(text: string)
    requires ExtractEmail(text).Some?
    ensures var r := ExtractEmail(text).value;
            '@' in r && ' ' !in r && IsLocalChar(r[0]) && EndsWithDomain(r)
  {
    var found := EmailSearch(text).value;
    var i, a, q, e := found.0, found.1.0, found.1.1, found.1.2;
    assert EmailMatcher()(text, i) == EmailAt(text, i) == Some((a, q, e));
    AddressShape(text, i, a, q, e);
  }

  // ---------------------------------------------------------------------
  // Phone
  // ---------------------------------------------------------------------

  /** `[6-9]\d{9}` at `p`. */
  predicate TenDigitsAt(t: string, p: nat) {
    p + 10 <= |t| && '6' <= t[p] <= '9' && forall k :: p < k < p + 10 ==> IsDigit(t[k])
  }

  /** `(?:\+91[\-\s]?)?[6-9]\d{9}` tried at `i`, returning the end of the
      match. With `+91` present the optional separator is taken when there
      is one; giving back the separator or the prefix leaves a character
      that `[6-9]` rejects, so the greedy choice decides. */
  function PhoneAt(t: string, i: nat): (r: Option<nat>)
    ensures r.Some? ==> i + 10 <= r.value <= |t| && TenDigitsAt(t, r.value - 10)
    ensures r.Some? ==> r.value - i in {10, 13, 14}
    ensures r.Some? && r.value - i > 10 ==> OccursAt(t, "+91", i)
    ensures r.Some? && r.value - i == 14 ==> t[i + 3] == '-' || IsSpace(t[i + 3])
    ensures TenDigitsAt(t, i) ==> r == Some(i + 10)
    ensures OccursAt(t, "+91", i) && TenDigitsAt(t, i + 3) ==> r == Some(i + 13)
    ensures OccursAt(t, "+91", i) && i + 3 < |t| && (t[i + 3] == '-' || IsSpace(t[i + 3])) && TenDigitsAt(t, i + 4)
            ==> r == Some(i + 14)
  {
    if OccursAt(t, "+91", i) then
      var p := if i + 3 < |t| && (t[i + 3] == '-' || IsSpace(t[i + 3])) then i + 4 else i + 3;
      if TenDigitsAt(t, p) then Some(p + 10) else None
    else if TenDigitsAt(t, i) then Some(i + 10) else None
  }

  function PhoneMatcher(): (string, nat) -> Option<nat> {
    (t, i) => PhoneAt(t, i)
  }

  function PhoneSearch(text: string): Option<(nat, nat)> {
    Leftmost(text, 0, PhoneMatcher())
  }

  /** `extract_phone`: the first match. */
  function ExtractPhone(text: string): Option<string> {
    var found := PhoneSearch(text);
    if found.None? then None else Some(text[found.value.0..found.value.1])
  }

  /** There is a number exactly when ten digits starting with 6 to 9 occur
      somewhere, and it is the leftmost match. */
  lemma PhoneFound(text: string)
    ensures ExtractPhone(text).None? <==> forall p :: 0 <= p <= |text| ==> !TenDigitsAt(text, p)
    ensures PhoneSearch(text).Some? ==> forall k :: 0 <= k < PhoneSearch(text).value.0 ==> PhoneAt(text, k).None?
  {
    assert forall i: nat :: PhoneMatcher()(text, i) == PhoneAt(text, i);
    if PhoneSearch(text).None? {
      forall p | 0 <= p <= |text| ensures !TenDigitsAt(text, p) {
        assert PhoneMatcher()(text, p).None?;
      }
    } else {
      var found := PhoneSearch(text).value;
      assert PhoneMatcher()(text, found.0) == PhoneAt(text, found.0) == Some(found.1);
      assert TenDigitsAt(text, found.1 - 10);
    }
  }

  /** The number, seen on its own. */
  lemma PhoneMatchShape(t: string, i: nat, e: nat)
    requires PhoneAt(t, i) == Some(e)
    ensures var n := t[i..e];
            && |n| in {10, 13, 14}
            && '6' <= n[|n| - 10] <= '9' && (forall k :: |n| - 10 < k < |n| ==> IsDigit(n[k]))
            && (|n| > 10 ==> n[..3] == "+91")
            && (|n| == 14 ==> n[3] == '-' || IsSpace(n[3]))
  {
    var n := t[i..e];
    assert forall k :: 0 <= k < |n| ==> n[k] == t[i + k];
    if |n| > 10 {
      assert n[..3] == t[i..i + 3];
    }
  }

  /** A number is ten digits, the first 6 to 9, optionally preceded by `+91`
      and one `-` or whitespace separator: 10, 13 or 14 characters. */
  lemma PhoneShape(text: string)
    requires ExtractPhone(text).Some?
    ensures var n := ExtractPhone(text).value;
            && |n| in {10, 13, 14}
            && '6' <= n[|n| - 10] <= '9' && (forall k :: |n| - 10 < k < |n| ==> IsDigit(n[k]))
            && (|n| > 10 ==> n[..3] == "+91")
            && (|n| == 14 ==> n[3] == '-' || IsSpace(n[3]))
  {
    var found := PhoneSearch(text).value;
    assert PhoneMatcher()(text, found.0) == PhoneAt(text, found.0) == Some(found.1);
    PhoneMatchShape(text, found.0, found.1);
  }

  // ---------------------------------------------------------------------
  // Skills
  // ---------------------------------------------------------------------

  /** The keywords of `extract_skills`, all lower-case already. */
  const SkillKeywords: seq<string> := [
    "c++", "java", "python", "html", "css", "javascript", "sql",
    "react", "reactjs", "nodejs", "expressjs", "mongodb", "git",
    "github", "bootstrap", "tailwind css",
    "object-oriented programming", "data structures", "algorithms"
  ]

  /** The keywords whose lowered form occurs in the lowered text, as a set
      (the list the source builds from it has no particular order). */
  function SkillsIn(keywords: seq<string>, text: string): (r: set<string>)
    ensures forall k :: k in r <==> k in keywords && Contains(Lower(text), Lower(k))
  {
    set k | k in keywords && Contains(Lower(text), Lower(k))
  }

  /** `extract_skills`. */
  function ExtractSkills(text: string): set<string> {
    SkillsIn(SkillKeywords, text)
  }

  /** A keyword inside another keyword is found whenever the longer one
      is. */
  lemma InnerKeyword(keywords: seq<string>, text: string, long: string, a: nat, b: nat)
    requires a <= b <= |long|
    requires long in keywords && long[a..b] in keywords
    ensures long in SkillsIn(keywords, text) ==> long[a..b] in SkillsIn(keywords, text)
  {
    if Contains(Lower(text), Lower(long)) {
      LowerSlice(long, a, b);
      ContainsInner(Lower(text), Lower(long), a, b);
    }
  }

  /** Containment is by substring, so a text naming "javascript" also yields
      "java". */
  lemma JavascriptYieldsJava(text: string)
    ensures "javascript" in ExtractSkills(text) ==> "java" in ExtractSkills(text)
  {
    var ks := SkillKeywords;
    assert ks[5] == "javascript" && ks[1] == "java";
    assert ks[5][0..4] == ks[1];
    InnerKeyword(ks, text, ks[5], 0, 4);
  }

  // ---------------------------------------------------------------------
  // Profile links
  // ---------------------------------------------------------------------

  /** `[a-zA-Z0-9_-]`. */
  predicate IsHandleChar(c: char) { IsAlnum(c) || c == '_' || c == '-' }

  /** `(https?://)?(www\.)?` then the host text (`github\.com/` or
      `linkedin\.com/in/`) then `[a-zA-Z0-9_-]+`, tried at `i`. Each optional
      group is taken when present: skipping it leaves `h` or `w` where the
      next element needs a different letter. Returns where the host starts
      and where the match ends. */
  function UrlAt(t: string, i: nat, host: string): (r: Option<(nat, nat)>)
    ensures r.Some? ==> var (p, e) := r.value;
            && i <= p && OccursAt(t, host, p) && p + |host| < e <= |t|
            && (forall k :: p + |host| <= k < e ==> IsHandleChar(t[k]))
  {
    var p1 := if OccursAt(t, "https://", i) then i + 8 else if OccursAt(t, "http://", i) then i + 7 else i;
    var p2 := if OccursAt(t, "www.", p1) then p1 + 4 else p1;
    var h := p2 + |host|;
    if OccursAt(t, host, p2) && h < |t| && IsHandleChar(t[h]) then Some((p2, RunEnd(t, h, IsHandleChar)))
    else None
  }

  function UrlMatcher(host: string): (string, nat) -> Option<(nat, nat)> {
    (t, i) => UrlAt(t, i, host)
  }

  function UrlSearch(t: string, host: string): Option<(nat, (nat, nat))> {
    Leftmost(t, 0, UrlMatcher(host))
  }

  /** `re.search(pattern, text.replace(" ", ""))`, case-sensitive, returning
      the whole match. */
  function ExtractUrl(text: string, host: string): Option<string> {
    var t := RemoveBlanks(text);
    var found := UrlSearch(t, host);
    if found.None? then None else Some(t[found.value.0..found.value.1.1])
  }

  const GithubHost: string := "github.com/"
  const LinkedinHost: string := "linkedin.com/in/"

  /** `extract_github_url`. */
  function ExtractGithubUrl(text: string): Option<string> {
    ExtractUrl(text, GithubHost)
  }

  /** `extract_linkedin_url`. */
  function ExtractLinkedinUrl(text: string): Option<string> {
    ExtractUrl(text, LinkedinHost)
  }

  /** A link contains the host followed, up to its end, by at least one
      handle character. */
  predicate EndsWithHandle(u: string, host: string) {
    exists p :: 0 <= p && OccursAt(u, host, p) && p + |host| < |u| && forall k :: p + |host| <= k < |u| ==> IsHandleChar(u[k])
  }

  /** The link cut from a match at `i`. */
  lemma UrlMatchShape(t: string, i: nat, host: string, p: nat, e: nat)
    requires ' ' !in t && UrlAt(t, i, host) == Some((p, e))
    ensures ' ' !in t[i..e] && EndsWithHandle(t[i..e], host)
  {
    var u := t[i..e];
    assert forall k :: 0 <= k < |u| ==> u[k] == t[i + k];
    assert u[p - i..p - i + |host|] == t[p..p + |host|];
    assert OccursAt(u, host, p - i);
  }

  /** A link has no blank and ends with the host and a handle. */
  lemma UrlShape(text: string, host: string)
    ensures ExtractUrl(text, host).Some? ==>
              ' ' !in ExtractUrl(text, host).value && EndsWithHandle(ExtractUrl(text, host).value, host)
  {
    var t := RemoveBlanks(text);
    assert forall i: nat :: UrlMatcher(host)(t, i) == UrlAt(t, i, host);
    if UrlSearch(t, host).Some? {
      var found := UrlSearch(t, host).value;
      UrlMatchShape(t, found.0, host, found.1.0, found.1.1);
    }
  }

  /** One way the link pattern can match from `i`, read part by part: the
      scheme `pre` (nothing, `http://` or `https://`), then `w` (nothing or
      `www.`), the host, and handle characters up to `e`. */
  predicate UrlParse(t: string, i: nat, host: string, pre: string, w: string, e: nat) {
    && (pre == "" || pre == "http://" || pre == "https://")
    && (w == "" || w == "www.")
    && OccursAt(t, pre, i) && OccursAt(t, w, i + |pre|) && OccursAt(t, host, i + |pre| + |w|)
    && i + |pre| + |w| + |host| < e <= |t|
    && forall k :: i + |pre| + |w| + |host| <= k < e ==> IsHandleChar(t[k])
  }

  /** The link pattern matches somewhere from `i` on. */
  ghost predicate UrlMatchesAt(t: string, i: nat, host: string) {
    exists pre: string, w: string, e: nat :: UrlParse(t, i, host, pre, w, e)
  }

  /** A host that starts with neither `h` nor `w`, as both hosts do, so
      that an optional part present in the text is never skipped. */
  predicate PlainHost(host: string) {
    |host| > 0 && host[0] != 'h' && host[0] != 'w'
  }

  /** The scheme a reading uses is the one `UrlAt` takes. */
  lemma UrlSchemeFixed(t: string, i: nat, host: string, pre: string, w: string, e: nat)
    requires PlainHost(host) && UrlParse(t, i, host, pre, w, e)
    ensures (if OccursAt(t, "https://", i) then i + 8 else if OccursAt(t, "http://", i) then i + 7 else i) == i + |pre|
  {
    OccursAtChar(t, host, i + |pre| + |w|, 0);
    if OccursAt(t, "http://", i) {
      OccursAtChar(t, "http://", i, 0);
      OccursAtChar(t, "http://", i, 4);
    }
    if OccursAt(t, "https://", i) {
      OccursAtChar(t, "https://", i, 0);
      OccursAtChar(t, "https://", i, 4);
    }
    if pre == "" {
      if w == "www." {
        OccursAtChar(t, w, i, 0);
      }
    } else if pre == "http://" {
      OccursAtChar(t, pre, i, 4);
    }
  }

  /** The `www.` a reading uses is the one `UrlAt` takes. */
  lemma UrlWwwFixed(t: string, p1: nat, host: string, w: string)
    requires PlainHost(host) && (w == "" || w == "www.")
    requires OccursAt(t, w, p1) && OccursAt(t, host, p1 + |w|)
    ensures (if OccursAt(t, "www.", p1) then p1 + 4 else p1) == p1 + |w|
  {
    OccursAtChar(t, host, p1 + |w|, 0);
    if OccursAt(t, "www.", p1) {
      OccursAtChar(t, "www.", p1, 0);
    }
  }

  /** Every reading of the link pattern from `i` is found by `UrlAt`, with
      the same host position and a handle at least as long. */
  lemma UrlAtComplete(t: string, i: nat, host: string, pre: string, w: string, e: nat)
    requires PlainHost(host) && UrlParse(t, i, host, pre, w, e)
    ensures UrlAt(t, i, host).Some?
    ensures UrlAt(t, i, host).value.0 == i + |pre| + |w| && e <= UrlAt(t, i, host).value.1
  {
    UrlSchemeFixed(t, i, host, pre, w, e);
    UrlWwwFixed(t, i + |pre|, host, w);
    var h := i + |pre| + |w| + |host|;
    RunEndCovers(t, h, e, IsHandleChar);
  }

  /** What `UrlAt` finds is a reading of the link pattern. */
  lemma UrlAtSound(t: string, i: nat, host: string)
    requires UrlAt(t, i, host).Some?
    ensures UrlMatchesAt(t, i, host)
  {
    var pre := if OccursAt(t, "https://", i) then "https://" else if OccursAt(t, "http://", i) then "http://" else "";
    var p1 := i + |pre|;
    var w := if OccursAt(t, "www.", p1) then "www." else "";
    assert UrlParse(t, i, host, pre, w, UrlAt(t, i, host).value.1);
  }

  /** For the two hosts, a link is found exactly when the pattern has a
      reading somewhere in the text with its blanks removed, and it is cut
      from the leftmost such place. */
  lemma UrlFound(text: string, host: string)
    requires PlainHost(host)
    ensures var t := RemoveBlanks(text);
            ExtractUrl(text, host).None? <==> forall i :: 0 <= i <= |t| ==> !UrlMatchesAt(t, i, host)
    ensures var t := RemoveBlanks(text);
            UrlSearch(t, host).Some? ==>
              && UrlMatchesAt(t, UrlSearch(t, host).value.0, host)
              && forall k :: 0 <= k < UrlSearch(t, host).value.0 ==> !UrlMatchesAt(t, k, host)
  {
    var t := RemoveBlanks(text);
    assert forall i: nat :: UrlMatcher(host)(t, i) == UrlAt(t, i, host);
    forall i: nat
      ensures UrlAt(t, i, host).Some? <==> UrlMatchesAt(t, i, host)
    {
      if UrlAt(t, i, host).Some? {
        UrlAtSound(t, i, host);
      }
      if UrlMatchesAt(t, i, host) {
        var pre: string, w: string, e: nat :| UrlParse(t, i, host, pre, w, e);
        UrlAtComplete(t, i, host, pre, w, e);
      }
    }
  }

  /** `extract_github_url` finds a link exactly when the pattern has a
      reading in the text with its blanks removed. */
  lemma GithubFound(text: string)
    ensures ExtractGithubUrl(text).None? <==> forall i :: 0 <= i <= |RemoveBlanks(text)| ==> !UrlMatchesAt(RemoveBlanks(text), i, GithubHost)
  {
    UrlFound(text, GithubHost);
  }

  /** `extract_linkedin_url` finds a link exactly when the pattern has a
      reading in the text with its blanks removed. */
  lemma LinkedinFound(text: string)
    ensures ExtractLinkedinUrl(text).None? <==> forall i :: 0 <= i <= |RemoveBlanks(text)| ==> !UrlMatchesAt(RemoveBlanks(text), i, LinkedinHost)
  {
    UrlFound(text, LinkedinHost);
  }

  /** A GitHub link contains `github.com/` and a handle. */
  lemma GithubShape(text: string)
    requires ExtractGithubUrl(text).Some?
    ensures EndsWithHandle(ExtractGithubUrl(text).value, GithubHost)
  {
    UrlShape(text, GithubHost);
  }

  /** A LinkedIn link contains `linkedin.com/in/` and a handle. */
  lemma LinkedinShape(text: string)
    requires ExtractLinkedinUrl(text).Some?
    ensures EndsWithHandle(ExtractLinkedinUrl(text).value, LinkedinHost)
  {
    UrlShape(text, LinkedinHost);
  }

  // ---------------------------------------------------------------------
  // Education
  // ---------------------------------------------------------------------

  /** One element of a course pattern: a literal character or `\.?`. */
  datatype Unit = Lit(c: char) | OptDot

  /** A literal string as pattern units. */
  function Lits(s: string): (us: seq<Unit>)
    ensures |us| == |s| && forall k :: 0 <= k < |s| ==> us[k] == Lit(s[k])
  {
    seq(|s|, k requires 0 <= k < |s| => Lit(s[k]))
  }

  /** The units followed by the closing `\b`, tried from `p` with Python's
      backtracking order (an optional dot is first taken, then skipped).
      Returns the end of the match. */
  function UnitsEnd(t: string, p: nat, us: seq<Unit>): (r: Option<nat>)
    requires p <= |t|
    ensures r.Some? ==> p <= r.value <= |t|
    decreases |us|
  {
    if |us| == 0 then (if IsBoundary(t, p) then Some(p) else None)
    else match us[0]
      case Lit(c) => if p < |t| && t[p] == c then UnitsEnd(t, p + 1, us[1..]) else None
      case OptDot =>
        var taken := if p < |t| && t[p] == '.' then UnitsEnd(t, p + 1, us[1..]) else None;
        if taken.Some? then taken else UnitsEnd(t, p, us[1..])
  }

  /** `\b` + pattern + `\b` tried at `i`. */
  function CourseAt(t: string, i: nat, us: seq<Unit>): (r: Option<nat>)
    ensures r.Some? ==> i <= r.value <= |t|
  {
    if i <= |t| && IsBoundary(t, i) then UnitsEnd(t, i, us) else None
  }

  function CourseMatcher(us: seq<Unit>): (string, nat) -> Option<nat> {
    (t, i) => CourseAt(t, i, us)
  }

  /** The course pattern matches at no index from `a` up to, not
      including, `b`. */
  predicate NoCourseIn(t: string, us: seq<Unit>, a: nat, b: nat) {
    forall i :: a <= i < b ==> CourseAt(t, i, us).None?
  }

  /** Where the search goes on after the match `m`: its end, or one further
      when the match is empty. */
  function ResumeAfter(m: (nat, nat)): nat {
    if m.1 > m.0 then m.1 else m.0 + 1
  }

  /** `re.findall` for a course pattern from `from`: each match is the
      leftmost one at or after the end of the previous. An empty match
      (which no course pattern has) would move the search on by one. */
  function FindAllCourses(t: string, from: nat, us: seq<Unit>): (r: seq<(nat, nat)>)
    ensures forall k :: 0 <= k < |r| ==> from <= r[k].0 <= r[k].1 <= |t|
    ensures forall k :: 0 <= k < |r| ==> CourseAt(t, r[k].0, us) == Some(r[k].1)
    ensures |r| == 0 <==> forall i :: from <= i <= |t| ==> CourseAt(t, i, us).None?
    ensures |r| > 0 ==> NoCourseIn(t, us, from, r[0].0)
    decreases |t| + 1 - from
  {
    var found := Leftmost(t, from, CourseMatcher(us));
    if found.None? then
      assert forall i :: from <= i <= |t| ==> CourseAt(t, i, us).None? by {
        forall i | from <= i <= |t| ensures CourseAt(t, i, us).None? {
          assert CourseMatcher(us)(t, i).None?;
        }
      }
      []
    else
      var (i, e) := found.value;
      assert CourseMatcher(us)(t, i) == CourseAt(t, i, us) == Some(e);
      assert NoCourseIn(t, us, from, i) by {
        forall k | from <= k < i ensures CourseAt(t, k, us).None? {
          assert CourseMatcher(us)(t, k).None?;
        }
      }
      [(i, e)] + FindAllCourses(t, ResumeAfter((i, e)), us)
  }

  /** No match is left out: none starts before the first reported match,
      between where the search goes on after one and the start of the next,
      or after the last. */
  lemma FindAllCoursesGaps(t: string, from: nat, us: seq<Unit>)
    ensures var r := FindAllCourses(t, from, us);
            && (|r| > 0 ==> NoCourseIn(t, us, from, r[0].0))
            && (forall k :: 0 <= k < |r| - 1 ==> ResumeAfter(r[k]) <= r[k + 1].0 && NoCourseIn(t, us, ResumeAfter(r[k]), r[k + 1].0))
            && (|r| > 0 ==> NoCourseIn(t, us, ResumeAfter(r[|r| - 1]), |t| + 1))
  {
    CoursesGapsMiddle(t, from, us);
    CoursesGapsLast(t, from, us);
  }

  /** Between consecutive reported matches no match is left out. */
  predicate GapsClear(t: string, us: seq<Unit>, r: seq<(nat, nat)>) {
    forall k :: 0 <= k < |r| - 1 ==> ResumeAfter(r[k]) <= r[k + 1].0 && NoCourseIn(t, us, ResumeAfter(r[k]), r[k + 1].0)
  }

  lemma GapsClearCons(t: string, us: seq<Unit>, x: (nat, nat), rest: seq<(nat, nat)>)
    requires GapsClear(t, us, rest)
    requires |rest| > 0 ==> ResumeAfter(x) <= rest[0].0 && NoCourseIn(t, us, ResumeAfter(x), rest[0].0)
    ensures GapsClear(t, us, [x] + rest)
  {
    var r := [x] + rest;
    forall k | 0 <= k < |r| - 1
      ensures ResumeAfter(r[k]) <= r[k + 1].0 && NoCourseIn(t, us, ResumeAfter(r[k]), r[k + 1].0)
    {
      if k > 0 {
        assert r[k] == rest[k - 1] && r[k + 1] == rest[k];
      }
    }
  }

  /** One step of the search: the leftmost match, then the matches after it. */
  lemma FindAllCoursesStep(t: string, from: nat, us: seq<Unit>)
    requires Leftmost(t, from, CourseMatcher(us)).Some?
    ensures var (i, e) := Leftmost(t, from, CourseMatcher(us)).value;
            FindAllCourses(t, from, us) == [(i, e)] + FindAllCourses(t, ResumeAfter((i, e)), us)
  {
  }

  lemma {:induction false} CoursesGapsMiddle(t: string, from: nat, us: seq<Unit>)
    ensures GapsClear(t, us, FindAllCourses(t, from, us))
    decreases |t| + 1 - from
  {
    var found := Leftmost(t, from, CourseMatcher(us));
    if found.Some? {
      var (i, e) := found.value;
      FindAllCoursesStep(t, from, us);
      CoursesGapsMiddle(t, ResumeAfter((i, e)), us);
      GapsClearCons(t, us, (i, e), FindAllCourses(t, ResumeAfter((i, e)), us));
    }
  }

  lemma {:induction false} CoursesGapsLast(t: string, from: nat, us: seq<Unit>)
    ensures var r := FindAllCourses(t, from, us);
            |r| > 0 ==> NoCourseIn(t, us, ResumeAfter(r[|r| - 1]), |t| + 1)
    decreases |t| + 1 - from
  {
    var found := Leftmost(t, from, CourseMatcher(us));
    if found.Some? {
      var (i, e) := found.value;
      var rest := FindAllCourses(t, ResumeAfter((i, e)), us);
      FindAllCoursesStep(t, from, us);
      CoursesGapsLast(t, ResumeAfter((i, e)), us);
      var r := [(i, e)] + rest;
      if |rest| == 0 {
        assert r[|r| - 1] == (i, e);
      } else {
        assert r[|r| - 1] == rest[|rest| - 1];
      }
    }
  }

  predicate NotDot(c: char) { c != '.' }

  /** No lower-case letter and no dot. */
  predicate CourseShaped(x: string) {
    forall k :: 0 <= k < |x| ==> !IsLower(x[k]) && x[k] != '.'
  }

  /** `match.replace(".", "").strip().upper()`. */
  function CleanCourse(m: string): (r: string)
    ensures CourseShaped(r)
  {
    var d := Filter(m, NotDot);
    FilterSatisfies(m, NotDot);
    StripKeeps(d, NotDot);
    Upper(Strip(d))
  }

  /** The cleaned matches of one pattern in the lowered text. */
  function CourseNames(t: string, us: seq<Unit>): (r: seq<string>)
    ensures |r| == 0 <==> forall i :: 0 <= i <= |t| ==> CourseAt(t, i, us).None?
  {
    var ms := FindAllCourses(t, 0, us);
    seq(|ms|, k requires 0 <= k < |ms| => CleanCourse(t[ms[k].0..ms[k].1]))
  }

  /** The course names found for a list of patterns, as a set; `None` when
      there are none. */
  function CoursesWith(patterns: seq<seq<Unit>>, text: string): (r: Option<set<string>>)
    ensures r.Some? ==> |r.value| > 0
  {
    var found := ToSet(Flatten(CourseGroups(patterns, Lower(text))));
    if found == {} then None else Some(found)
  }

  /** The names each pattern yields, pattern by pattern. */
  function CourseGroups(patterns: seq<seq<Unit>>, t: string): (g: seq<seq<string>>)
    ensures |g| == |patterns| && forall j :: 0 <= j < |patterns| ==> g[j] == CourseNames(t, patterns[j])
  {
    seq(|patterns|, j requires 0 <= j < |patterns| => CourseNames(t, patterns[j]))
  }

  /** A non-empty group puts something into the set. */
  lemma FlattenSetNonEmpty(groups: seq<seq<string>>, j: nat)
    requires j < |groups| && |groups[j]| > 0
    ensures ToSet(Flatten(groups)) != {}
  {
    var x := groups[j][0];
    FlattenMember(groups, x);
    assert x in ToSet(Flatten(groups));
  }

  /** The course patterns, in the order they are tried. */
  const CoursePatterns: seq<seq<Unit>> := [
    [Lit('b'), OptDot] + Lits("tech"), Lits("bachelor of technology"),
    [Lit('b'), OptDot, Lit('e')], Lits("bachelor of engineering"),
    Lits("bsc"), [Lit('b'), OptDot] + Lits("sc"), Lits("bachelor of science"),
    Lits("bca"), [Lit('b'), OptDot, Lit('c'), OptDot, Lit('a')],
    [Lit('m'), OptDot] + Lits("tech"), Lits("master of technology"),
    [Lit('m'), OptDot, Lit('e')], Lits("master of engineering"),
    Lits("msc"), [Lit('m'), OptDot] + Lits("sc"), Lits("master of science"),
    Lits("mca"), [Lit('m'), OptDot, Lit('c'), OptDot, Lit('a')],
    [Lit('p'), Lit('h'), OptDot, Lit('d')], Lits("high school"), Lits("secondary school"), Lits("senior secondary")
  ]

  /** `extract_education`. */
  function ExtractEducation(text: string): Option<set<string>> {
    CoursesWith(CoursePatterns, text)
  }

  /** Every course name is upper-case and has no dot. */
  lemma CoursesShape(patterns: seq<seq<Unit>>, text: string)
    requires CoursesWith(patterns, text).Some?
    ensures forall x :: x in CoursesWith(patterns, text).value ==> CourseShaped(x)
  {
    var t := Lower(text);
    var groups := CourseGroups(patterns, t);
    forall x | x in CoursesWith(patterns, text).value ensures CourseShaped(x) {
      FlattenMember(groups, x);
      var j :| 0 <= j < |groups| && x in groups[j];
      var n :| 0 <= n < |groups[j]| && groups[j][n] == x;
      CourseNameShaped(t, patterns[j], n);
    }
  }

  lemma CourseNameShaped(t: string, us: seq<Unit>, n: nat)
    requires n < |CourseNames(t, us)|
    ensures CourseShaped(CourseNames(t, us)[n])
  {
    var ms := FindAllCourses(t, 0, us);
    assert CourseNames(t, us)[n] == CleanCourse(t[ms[n].0..ms[n].1]);
  }

  lemma CoursesFoundAt(patterns: seq<seq<Unit>>, text: string, j: nat, i: nat)
    requires j < |patterns| && i <= |text| && CourseAt(Lower(text), i, patterns[j]).Some?
    ensures CoursesWith(patterns, text).Some?
  {
    var groups := CourseGroups(patterns, Lower(text));
    assert |groups[j]| > 0;
    FlattenSetNonEmpty(groups, j);
  }

  lemma CoursesNone(patterns: seq<seq<Unit>>, text: string)
    requires forall j, i :: 0 <= j < |patterns| && 0 <= i <= |text| ==> CourseAt(Lower(text), i, patterns[j]).None?
    ensures CoursesWith(patterns, text).None?
  {
    var t := Lower(text);
    assert |t| == |text|;
    var groups := CourseGroups(patterns, t);
    forall j | 0 <= j < |groups| ensures groups[j] == [] {
      var us := patterns[j];
      assert forall i :: 0 <= i <= |t| ==> CourseAt(t, i, us).None?;
      assert |CourseNames(t, us)| == 0;
    }
    forall x ensures x !in Flatten(groups) {
      FlattenMember(groups, x);
    }
    assert ToSet(Flatten(groups)) == {};
  }

  /** There are courses exactly when some pattern matches the lowered text. */
  lemma CoursesFoundAnywhere(patterns: seq<seq<Unit>>, text: string)
    ensures CoursesWith(patterns, text).None? <==>
              forall j, i :: 0 <= j < |patterns| && 0 <= i <= |text| ==> CourseAt(Lower(text), i, patterns[j]).None?
  {
    if exists j, i :: 0 <= j < |patterns| && 0 <= i <= |text| && CourseAt(Lower(text), i, patterns[j]).Some? {
      var j, i :| 0 <= j < |patterns| && 0 <= i <= |text| && CourseAt(Lower(text), i, patterns[j]).Some?;
      CoursesFoundAt(patterns, text, j, i);
    } else {
      CoursesNone(patterns, text);
    }
  }

  /** The literal characters of a pattern. */
  function Letters(us: seq<Unit>): string
    decreases |us|
  {
    if |us| == 0 then ""
    else match us[0]
      case Lit(c) => [c] + Letters(us[1..])
      case OptDot => Letters(us[1..])
  }

  /** Every match of a pattern is its literal characters, with or without
      the optional dots: once the dots are removed nothing else differs. */
  lemma {:induction false} UnitsEndText(t: string, p: nat, us: seq<Unit>)
    requires p <= |t| && UnitsEnd(t, p, us).Some?
    ensures Filter(t[p..UnitsEnd(t, p, us).value], NotDot) == Filter(Letters(us), NotDot)
    decreases |us|
  {
    var e := UnitsEnd(t, p, us).value;
    if |us| > 0 {
      match us[0]
      case Lit(c) =>
        assert UnitsEnd(t, p + 1, us[1..]) == Some(e);
        UnitsEndText(t, p + 1, us[1..]);
        assert t[p..e] == [c] + t[p + 1..e];
        assert Letters(us) == [c] + Letters(us[1..]);
        SameLettersCons(c, t[p + 1..e], Letters(us[1..]));
      case OptDot =>
        var taken := if p < |t| && t[p] == '.' then UnitsEnd(t, p + 1, us[1..]) else None;
        assert Letters(us) == Letters(us[1..]);
        if taken.Some? {
          assert taken == Some(e);
          UnitsEndText(t, p + 1, us[1..]);
          assert t[p..e] == ['.'] + t[p + 1..e];
          FilterAppend(['.'], t[p + 1..e], NotDot);
        } else {
          UnitsEndText(t, p, us[1..]);
        }
    }
  }

  /** The same character in front keeps two strings equal once their dots
      are removed. */
  lemma SameLettersCons(c: char, a: string, b: string)
    requires Filter(a, NotDot) == Filter(b, NotDot)
    ensures Filter([c] + a, NotDot) == Filter([c] + b, NotDot)
  {
    FilterAppend([c], a, NotDot);
    FilterAppend([c], b, NotDot);
  }

  /** The name a pattern's matches are cleaned to. */
  function CourseName(us: seq<Unit>): string {
    Upper(Strip(Filter(Letters(us), NotDot)))
  }

  /** Every match of a pattern cleans to the pattern's name: "b.tech" and
      "btech" both give "BTECH". */
  lemma CourseMatchName(t: string, i: nat, us: seq<Unit>)
    requires CourseAt(t, i, us).Some?
    ensures CleanCourse(t[i..CourseAt(t, i, us).value]) == CourseName(us)
  {
    UnitsEndText(t, i, us);
  }

  /** The cleaned matches of one pattern are all its name. */
  lemma CourseNamesAreName(t: string, us: seq<Unit>, n: nat)
    requires n < |CourseNames(t, us)|
    ensures CourseNames(t, us)[n] == CourseName(us)
  {
    var ms := FindAllCourses(t, 0, us);
    CourseMatchName(t, ms[n].0, us);
  }

  /** The pattern matches somewhere in `t`. */
  predicate PatternMatches(t: string, us: seq<Unit>) {
    exists i :: 0 <= i <= |t| && CourseAt(t, i, us).Some?
  }

  lemma CourseNamesNonEmpty(t: string, us: seq<Unit>)
    ensures |CourseNames(t, us)| > 0 <==> PatternMatches(t, us)
  {
  }

  /** The courses found are exactly the names of the patterns that match the
      lowered text. */
  lemma CoursesMember(patterns: seq<seq<Unit>>, text: string, x: string)
    requires CoursesWith(patterns, text).Some?
    ensures x in CoursesWith(patterns, text).value <==>
              exists j :: 0 <= j < |patterns| && PatternMatches(Lower(text), patterns[j]) && x == CourseName(patterns[j])
  {
    var t := Lower(text);
    var groups := CourseGroups(patterns, t);
    FlattenMember(groups, x);
    if x in CoursesWith(patterns, text).value {
      var j :| 0 <= j < |groups| && x in groups[j];
      var n :| 0 <= n < |groups[j]| && groups[j][n] == x;
      CourseNamesAreName(t, patterns[j], n);
      CourseNamesNonEmpty(t, patterns[j]);
    }
    if exists j :: 0 <= j < |patterns| && PatternMatches(t, patterns[j]) && x == CourseName(patterns[j]) {
      var j :| 0 <= j < |patterns| && PatternMatches(t, patterns[j]) && x == CourseName(patterns[j]);
      CourseNamesNonEmpty(t, patterns[j]);
      CourseNamesAreName(t, patterns[j], 0);
      assert x in groups[j];
    }
  }

  /** The names of the patterns that match the lowered text. */
  function MatchedNames(patterns: seq<seq<Unit>>, text: string): set<string> {
    set j | 0 <= j < |patterns| && PatternMatches(Lower(text), patterns[j]) :: CourseName(patterns[j])
  }

  /** `extract_education` with the given patterns: `None` when no pattern
      matches the lowered text, and otherwise the set of the names of the
      patterns that do, "b.tech" and "btech" both giving "BTECH". */
  lemma CoursesFound(patterns: seq<seq<Unit>>, text: string)
    ensures CoursesWith(patterns, text).None? <==> forall j :: 0 <= j < |patterns| ==> !PatternMatches(Lower(text), patterns[j])
    ensures CoursesWith(patterns, text).Some? ==> CoursesWith(patterns, text).value == MatchedNames(patterns, text)
  {
    CoursesFoundAnywhere(patterns, text);
    assert |Lower(text)| == |text|;
    if CoursesWith(patterns, text).Some? {
      forall x
        ensures x in CoursesWith(patterns, text).value <==> x in MatchedNames(patterns, text)
      {
        CoursesMember(patterns, text, x);
      }
    }
  }

  // ---------------------------------------------------------------------
  // Projects
  // ---------------------------------------------------------------------

  /** The words that mark a line as describing a project. */
  const ProjectKeywords: seq<string> := ["project", "clone", "system", "detection", "app", "application", "implementation"]

  /** Some keyword occurs in the line. */
  predicate AnyIn(line: string, ks: seq<string>) {
    exists j :: 0 <= j < |ks| && Contains(line, ks[j])
  }

  /** The `j`-th line after line `i`, stripped and preceded by a space, when
      there is one. */
  function Follow(lines: seq<string>, i: nat, j: nat): string {
    if i + j < |lines| then " " + Strip(lines[i + j]) else ""
  }

  /** The project entry for keyword line `i`: that line and the two after
      it, stripped. */
  function ProjectBlock(lines: seq<string>, i: nat): string
    requires i < |lines|
  {
    Strip(lines[i] + Follow(lines, i, 1) + Follow(lines, i, 2))
  }

  /** The indices, at or after `from` and in increasing order, of exactly
      the lines that mention a keyword. */
  function KeywordLines(lines: seq<string>, ks: seq<string>, from: nat): (r: seq<nat>)
    requires from <= |lines|
    ensures forall k :: 0 <= k < |r| ==> from <= r[k] < |lines| && AnyIn(lines[r[k]], ks)
    ensures forall k, l :: 0 <= k < l < |r| ==> r[k] < r[l]
    ensures forall j :: from <= j < |lines| && AnyIn(lines[j], ks) ==> j in r
    decreases |lines| - from
  {
    if from == |lines| then []
    else (if AnyIn(lines[from], ks) then [from] else []) + KeywordLines(lines, ks, from + 1)
  }

  /** One entry per keyword line, in line order. */
  function ProjectsIn(lines: seq<string>, ks: seq<string>): (r: seq<string>)
    ensures |r| == |KeywordLines(lines, ks, 0)|
    ensures |r| == 0 <==> forall j :: 0 <= j < |lines| ==> !AnyIn(lines[j], ks)
  {
    var idx := KeywordLines(lines, ks, 0);
    assert |idx| > 0 ==> AnyIn(lines[idx[0]], ks);
    seq(|idx|, k requires 0 <= k < |idx| => ProjectBlock(lines, idx[k]))
  }

  /** `extract_projects`: the entries for the lines of the lowered text;
      `None` when no line mentions a keyword. */
  function ExtractProjects(text: string): Option<seq<string>> {
    var r := ProjectsIn(Split(Lower(text), '\n'), ProjectKeywords);
    if |r| == 0 then None else Some(r)
  }

  /** Entry `k` is the block of the `k`-th keyword line. */
  lemma ProjectEntry(lines: seq<string>, ks: seq<string>, k: nat)
    requires k < |ProjectsIn(lines, ks)|
    ensures var i := KeywordLines(lines, ks, 0)[k];
      i < |lines| && AnyIn(lines[i], ks) && ProjectsIn(lines, ks)[k] == ProjectBlock(lines, i)
  {
  }

  /** A block keeps the keyword of its line, provided keywords are non-empty
      and hold no whitespace. */
  lemma BlockMentionsKeyword(lines: seq<string>, ks: seq<string>, i: nat)
    requires i < |lines| && AnyIn(lines[i], ks)
    requires forall j :: 0 <= j < |ks| ==> |ks[j]| > 0 && AllChars(ks[j], NotSpace)
    ensures AnyIn(ProjectBlock(lines, i), ks)
  {
    var j :| 0 <= j < |ks| && Contains(lines[i], ks[j]);
    ContainsAppend(lines[i], Follow(lines, i, 1), ks[j]);
    ContainsAppend(lines[i] + Follow(lines, i, 1), Follow(lines, i, 2), ks[j]);
    StripContains(lines[i] + Follow(lines, i, 1) + Follow(lines, i, 2), ks[j]);
  }

  lemma ProjectKeywordsSpaceFree()
    ensures forall j :: 0 <= j < |ProjectKeywords| ==> |ProjectKeywords[j]| > 0 && AllChars(ProjectKeywords[j], NotSpace)
  {
  }

  /** Every project entry mentions a project keyword. */
  lemma ProjectsMentionKeyword(text: string, k: nat)
    requires ExtractProjects(text).Some? && k < |ExtractProjects(text).value|
    ensures AnyIn(ExtractProjects(text).value[k], ProjectKeywords)
  {
    var lines := Split(Lower(text), '\n');
    ProjectEntry(lines, ProjectKeywords, k);
    ProjectKeywordsSpaceFree();
    BlockMentionsKeyword(lines, ProjectKeywords, KeywordLines(lines, ProjectKeywords, 0)[k]);
  }

  /** Projects are found exactly when some line of the lowered text mentions
      a keyword. */
  lemma ProjectsFound(text: string)
    ensures ExtractProjects(text).None? <==>
              forall j :: 0 <= j < |Split(Lower(text), '\n')| ==> !AnyIn(Split(Lower(text), '\n')[j], ProjectKeywords)
  {
  }

  /** The text is lowered first, so its case does not matter. */
  lemma ProjectsIgnoreCase(text: string)
    ensures ExtractProjects(Lower(text)) == ExtractProjects(text)
  {
    LowerIdempotent(text);
  }
}
