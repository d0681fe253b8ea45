/** The experience extractor: the section of a resume that starts at the
    first experience keyword, the month-to-date ranges written in it, and its
    sentences long enough to count as highlights. */
module ExperienceExtractor {
  import opened Wrappers
  import opened Text
  import opened Collections

  // ---------------------------------------------------------------------
  // Locating the section
  // ---------------------------------------------------------------------

  /** The keywords tried in this order; the first one present wins,
      wherever it stands in the text. */
  const ExperienceKeywords: seq<string> := ["experience", "work experience", "professional experience", "internship", "employment history"]

  /** The index of the first keyword of `ks` that occurs in `t`. */
  function FirstPresent(t: string, ks: seq<string>): (r: Option<nat>)
    ensures r.Some? ==> r.value < |ks| && Contains(t, ks[r.value])
    ensures r.Some? ==> forall j :: 0 <= j < r.value ==> !Contains(t, ks[j])
    ensures r.None? ==> forall j :: 0 <= j < |ks| ==> !Contains(t, ks[j])
  {
    var p := k => Contains(t, k);
    var r := FirstWhere(ks, p, 0);
    assert r.Some? ==> p(ks[r.value]);
    assert forall j :: 0 <= j < |ks| && !p(ks[j]) ==> !Contains(t, ks[j]);
    r
  }

  /** `extract_experience_section` over the keywords `ks`: the suffix of the
      text from the first occurrence, ignoring case, of the first keyword
      that occurs at all; `""` when none does. */
  function SectionWith(text: string, ks: seq<string>): (r: string)
    ensures |r| <= |text| && r == text[|text| - |r|..]
  {
    var t := Lower(text);
    match FirstPresent(t, ks)
    case None => ""
    case Some(j) => text[IndexOf(t, ks[j]).value..]
  }

  function ExtractExperienceSection(text: string): string {
    SectionWith(text, ExperienceKeywords)
  }

  /** With non-empty keywords, the section is empty exactly when no keyword
      occurs in the lowered text. */
  lemma SectionEmptyIff(text: string, ks: seq<string>)
    requires forall j :: 0 <= j < |ks| ==> |ks[j]| > 0
    ensures SectionWith(text, ks) == "" <==> forall j :: 0 <= j < |ks| ==> !Contains(Lower(text), ks[j])
  {
    var t := Lower(text);
    var found := FirstPresent(t, ks);
    if found.Some? {
      var i := IndexOf(t, ks[found.value]).value;
      assert OccursAt(t, ks[found.value], i);
      assert |text[i..]| > 0;
    }
  }

  /** When a keyword occurs, the section begins at the first occurrence of
      the earliest listed keyword present, written as in the text. */
  lemma SectionStartsAtKeyword(text: string, ks: seq<string>, j: nat)
    requires j < |ks| && Contains(Lower(text), ks[j])
    requires forall i :: 0 <= i < j ==> !Contains(Lower(text), ks[i])
    ensures var i := IndexOf(Lower(text), ks[j]).value;
      && SectionWith(text, ks) == text[i..]
      && OccursAt(Lower(text), ks[j], i)
      && forall k :: 0 <= k < i ==> !OccursAt(Lower(text), ks[j], k)
  {
    var found := FirstPresent(Lower(text), ks);
    assert found.Some? && found.value == j;
  }

  /** "experience" is listed first: when it occurs the section starts at its
      first occurrence, however early an "internship" stands. */
  lemma ExperienceWins(text: string)
    requires Contains(Lower(text), "experience")
    ensures var i := IndexOf(Lower(text), "experience").value;
      ExtractExperienceSection(text) == text[i..]
  {
    assert ExperienceKeywords[0] == "experience";
    SectionStartsAtKeyword(text, ExperienceKeywords, 0);
  }

  /** A keyword that holds an earlier listed keyword is never the one
      chosen: wherever it occurs, the earlier one occurs too. */
  lemma InnerShadowed(t: string, ks: seq<string>, a: nat, b: nat, lo: nat, hi: nat)
    requires a < b < |ks| && lo <= hi <= |ks[b]| && ks[b][lo..hi] == ks[a]
    ensures FirstPresent(t, ks) != Some(b)
  {
    if Contains(t, ks[b]) {
      ContainsInner(t, ks[b], lo, hi);
    }
  }

  /** "work experience" and "professional experience" end with
      "experience". */
  lemma KeywordsNest()
    ensures ExperienceKeywords[1][5..15] == ExperienceKeywords[0]
    ensures ExperienceKeywords[2][13..23] == ExperienceKeywords[0]
  {
  }

  /** Only "experience", "internship" or "employment history" can start the
      section: the second and third keywords end with the first, so whenever
      they occur the first occurs too and wins. */
  lemma InnerKeywordsNeverChosen(text: string)
    requires ExtractExperienceSection(text) != ""
    ensures exists j :: (j == 0 || j == 3 || j == 4) && Contains(Lower(text), ExperienceKeywords[j])
                        && ExtractExperienceSection(text) == text[IndexOf(Lower(text), ExperienceKeywords[j]).value..]
  {
    var t := Lower(text);
    var ks := ExperienceKeywords;
    KeywordsNest();
    InnerShadowed(t, ks, 0, 1, 5, 15);
    InnerShadowed(t, ks, 0, 2, 13, 23);
    var j := FirstPresent(t, ks).value;
    SectionStartsAtKeyword(text, ks, j);
  }

  // ---------------------------------------------------------------------
  // Date ranges
  // ---------------------------------------------------------------------

  /** The month alternatives of the date pattern, in the order tried. */
  const Months: seq<string> := ["jan", "feb", "mar", "apr", "may", "jun", "jul", "aug", "sep", "sept", "oct", "nov", "dec"]

  /** `[.,]`. */
  predicate IsPunct(c: char) { c == '.' || c == ',' }

  /** `[-–to]` under IGNORECASE: a hyphen, an en dash, or the letters t and o. */
  predicate IsDash(c: char) { c == '-' || c == '–' || c == 't' || c == 'o' || c == 'T' || c == 'O' }

  /** An optional character of class `p` at `i`: where the match goes on. */
  function Optional(t: string, i: nat, p: char -> bool): (j: nat)
    requires i <= |t|
    ensures j == i || (i < |t| && j == i + 1 && p(t[i]))
    ensures j <= |t|
  {
    if i < |t| && p(t[i]) then i + 1 else i
  }

  /** `\d{4}` at `i`. */
  predicate FourDigits(t: string, i: nat) {
    i + 4 <= |t| && forall k :: i <= k < i + 4 ==> IsDigit(t[k])
  }

  /** `(present|\d{4})` at `i`, ignoring case: the end of the group. */
  function EndGroup(t: string, i: nat): (r: Option<nat>)
    requires i <= |t|
    ensures r.Some? ==> (OccursAt(Lower(t), "present", i) && r.value == i + 7) || (FourDigits(t, i) && r.value == i + 4)
  {
    if OccursAt(Lower(t), "present", i) then Some(i + 7)
    else if FourDigits(t, i) then Some(i + 4)
    else None
  }

  /** The index of the first word of `ws` that occurs at `i`: the
      alternative `(w1|w2|…)` commits to. */
  function FirstAt(t: string, ws: seq<string>, i: nat): (r: Option<nat>)
    ensures r.Some? ==> r.value < |ws| && OccursAt(t, ws[r.value], i)
    ensures r.Some? ==> forall j :: 0 <= j < r.value ==> !OccursAt(t, ws[j], i)
    ensures r.None? ==> forall j :: 0 <= j < |ws| ==> !OccursAt(t, ws[j], i)
  {
    var p := w => OccursAt(t, w, i);
    var r := FirstWhere(ws, p, 0);
    assert r.Some? ==> p(ws[r.value]);
    assert forall j :: 0 <= j < |ws| && !p(ws[j]) ==> !OccursAt(t, ws[j], i);
    r
  }

  /** An alternative listed after a prefix of itself is never the one
      committed to. */
  lemma PrefixShadows(t: string, ws: seq<string>, i: nat, a: nat, b: nat)
    requires a < b < |ws| && |ws[a]| <= |ws[b]| && ws[b][..|ws[a]|] == ws[a]
    ensures FirstAt(t, ws, i) != Some(b)
  {
    if OccursAt(t, ws[b], i) {
      assert t[i..i + |ws[a]|] == t[i..i + |ws[b]|][..|ws[a]|];
    }
  }

  /** `[a-z]*[.,]?\s?\d{4}\s?[-–to]+\s?(present|\d{4})` from `p`: the
      bounds of the second group. The optional parts and the runs never give
      anything back: no shorter choice lets the next part match. */
  function TailAt(t: string, p: nat): (r: Option<(nat, nat)>)
    requires p <= |t|
    ensures r.Some? ==> p < r.value.0 <= |t| && EndGroup(t, r.value.0) == Some(r.value.1)
  {
    TailFrom(t, HeadEnd(t, p))
  }

  /** `\d{4}\s?[-–to]+\s?(present|\d{4})` from `h`, where the part before
      the first year ends. */
  function TailFrom(t: string, h: nat): (r: Option<(nat, nat)>)
    requires h <= |t|
    ensures r.Some? ==> h < r.value.0 <= |t| && EndGroup(t, r.value.0) == Some(r.value.1)
  {
    if !FourDigits(t, h) then None
    else DashTail(t, h + 4)
  }

  /** `[a-z]*[.,]?\s?` from `p`: the letters after the month, an optional
      `.` or `,` and an optional blank, all taken when present. */
  function HeadEnd(t: string, p: nat): (r: nat)
    requires p <= |t|
    ensures p <= r <= |t|
  {
    Optional(t, Optional(t, RunEnd(t, p, IsLetter), IsPunct), IsSpace)
  }

  /** `\s?[-–to]+\s?(present|\d{4})` from `q`, after the four digits of the
      first year: the optional blank, at least one dash, the optional blank
      and the second group. Returns where the group starts and ends. */
  function DashTail(t: string, q: nat): (r: Option<(nat, nat)>)
    requires q <= |t|
    ensures r.Some? ==> q < r.value.0 <= |t| && EndGroup(t, r.value.0) == Some(r.value.1)
  {
    var p4 := Optional(t, q, IsSpace);
    var p5 := RunEnd(t, p4, IsDash);
    if p5 == p4 then None
    else
      var p6 := Optional(t, p5, IsSpace);
      match EndGroup(t, p6)
      case None => None
      case Some(e) => Some((p6, e))
  }

  /** One way the rest of the date pattern can match from `p`, written out
      part by part: letters up to `p1`, an optional `[.,]` up to `p2`, an
      optional blank up to `p3`, four digits, an optional blank up to `p4`,
      at least one dash character up to `p5`, an optional blank up to `p6`,
      and the second group from `p6` to `e`. */
  predicate TailParse(t: string, p: nat, p1: nat, p2: nat, p3: nat, p4: nat, p5: nat, p6: nat, e: nat) {
    && p <= p1 <= |t| && AllChars(t[p..p1], IsLetter)
    && (p2 == p1 || (p1 < |t| && p2 == p1 + 1 && IsPunct(t[p1])))
    && (p3 == p2 || (p2 < |t| && p3 == p2 + 1 && IsSpace(t[p2])))
    && FourDigits(t, p3)
    && (p4 == p3 + 4 || (p3 + 4 < |t| && p4 == p3 + 5 && IsSpace(t[p3 + 4])))
    && p4 < p5 <= |t| && AllChars(t[p4..p5], IsDash)
    && (p6 == p5 || (p5 < |t| && p6 == p5 + 1 && IsSpace(t[p5])))
    && p6 <= |t| && EndGroup(t, p6) == Some(e)
  }

  /** The second group can only start at "p" (in either case) or a digit. */
  lemma EndGroupFirst(t: string, i: nat)
    requires i <= |t| && EndGroup(t, i).Some?
    ensures i < |t| && (LowerChar(t[i]) == 'p' || IsDigit(t[i]))
  {
    if OccursAt(Lower(t), "present", i) {
      assert Lower(t)[i] == "present"[0];
    }
  }

  /** The character classes of the date pattern that follow one another
      are disjoint, so no part can take a character the next one needs. */
  lemma ClassesDisjoint(c: char)
    ensures IsLetter(c) ==> !IsPunct(c) && !IsSpace(c) && !IsDigit(c)
    ensures IsPunct(c) ==> !IsSpace(c) && !IsDigit(c)
    ensures IsSpace(c) ==> !IsDigit(c) && !IsDash(c) && LowerChar(c) != 'p'
    ensures IsDash(c) ==> !IsSpace(c) && !IsDigit(c) && LowerChar(c) != 'p'
  {
  }

  /** The part before the four digits ends where `TailAt` puts it. */
  lemma TailParseHead(t: string, p: nat, p1: nat, p2: nat, p3: nat, p4: nat, p5: nat, p6: nat, e: nat)
    requires TailParse(t, p, p1, p2, p3, p4, p5, p6, e)
    ensures RunEnd(t, p, IsLetter) == p1
    ensures Optional(t, p1, IsPunct) == p2
    ensures Optional(t, p2, IsSpace) == p3
    ensures HeadEnd(t, p) == p3
  {
    assert forall k :: p <= k < p1 ==> IsLetter(t[k]) by {
      assert forall k :: p <= k < p1 ==> t[k] == t[p..p1][k - p];
    }
    assert p3 < |t| && IsDigit(t[p3]);
    RunEndCovers(t, p, p1, IsLetter);
    if p1 < RunEnd(t, p, IsLetter) {
      ClassesDisjoint(t[p1]);
      assert false;
    }
    if p1 < |t| {
      ClassesDisjoint(t[p1]);
    }
    if p2 < |t| {
      ClassesDisjoint(t[p2]);
    }
  }

  /** The part after the four digits ends where `TailAt` puts it. */
  lemma TailParseRest(t: string, p: nat, p1: nat, p2: nat, p3: nat, p4: nat, p5: nat, p6: nat, e: nat)
    requires TailParse(t, p, p1, p2, p3, p4, p5, p6, e)
    ensures Optional(t, p3 + 4, IsSpace) == p4
    ensures RunEnd(t, p4, IsDash) == p5
    ensures Optional(t, p5, IsSpace) == p6
  {
    assert forall k :: p4 <= k < p5 ==> IsDash(t[k]) by {
      assert forall k :: p4 <= k < p5 ==> t[k] == t[p4..p5][k - p4];
    }
    EndGroupFirst(t, p6);
    if p3 + 4 < |t| {
      ClassesDisjoint(t[p3 + 4]);
    }
    RunEndCovers(t, p4, p5, IsDash);
    if p5 < RunEnd(t, p4, IsDash) {
      ClassesDisjoint(t[p5]);
      assert false;
    }
    if p5 < |t| {
      ClassesDisjoint(t[p5]);
    }
  }

  /** Whatever way the rest of the pattern matches from `p`, `TailAt`
      finds it, with the same second group: the pattern never has a second
      way to match from the same place. */
  lemma TailAtComplete(t: string, p: nat, p1: nat, p2: nat, p3: nat, p4: nat, p5: nat, p6: nat, e: nat)
    requires TailParse(t, p, p1, p2, p3, p4, p5, p6, e)
    ensures TailAt(t, p) == Some((p6, e))
  {
    assert HeadEnd(t, p) == p3 && FourDigits(t, p3) by {
      TailParseHead(t, p, p1, p2, p3, p4, p5, p6, e);
    }
    assert DashTail(t, p3 + 4) == Some((p6, e)) by {
      TailParseRest(t, p, p1, p2, p3, p4, p5, p6, e);
      DashTailFrom(t, p3 + 4, p4, p5, p6, e);
    }
    TailAtParts(t, p, p3, p6, e);
  }

  /** `TailAt` goes on to the dash part once the part before the four
      digits ends at `p3`. */
  lemma TailAtParts(t: string, p: nat, p3: nat, p6: nat, e: nat)
    requires p <= |t| && HeadEnd(t, p) == p3
    requires FourDigits(t, p3) && DashTail(t, p3 + 4) == Some((p6, e))
    ensures TailAt(t, p) == Some((p6, e))
  {
    TailAtUnfold(t, p);
  }

  /** `TailAt` is the head part, the first year, then the dash part. */
  lemma TailAtUnfold(t: string, p: nat)
    requires p <= |t|
    ensures TailAt(t, p) == (if FourDigits(t, HeadEnd(t, p)) then DashTail(t, HeadEnd(t, p) + 4) else None)
  {
  }

  /** `DashTail` follows the parts once each one ends where the lemma above
      puts it. */
  lemma DashTailFrom(t: string, q: nat, p4: nat, p5: nat, p6: nat, e: nat)
    requires q <= |t| && p5 <= |t|
    requires Optional(t, q, IsSpace) == p4 && RunEnd(t, p4, IsDash) == p5 && p4 < p5
    requires Optional(t, p5, IsSpace) == p6 && EndGroup(t, p6) == Some(e)
    ensures DashTail(t, q) == Some((p6, e))
  {
  }

  /** The group is "present" in any case or four digits. */
  lemma EndShape(t: string, i: nat)
    requires i <= |t| && EndGroup(t, i).Some?
    ensures var e := EndGroup(t, i).value;
      Lower(t[i..e]) == "present" || (e == i + 4 && AllChars(t[i..e], IsDigit))
  {
    var e := EndGroup(t, i).value;
    if OccursAt(Lower(t), "present", i) {
      LowerSlice(t, i, e);
    } else {
      assert forall k :: 0 <= k < e - i ==> t[i..e][k] == t[i + k];
    }
  }

  /** The two groups `findall` reports for one date range. */
  datatype DateRange = DateRange(month: string, end: string)

  /** A matcher for what follows the month: from any position it reports
      the bounds of an end group further on. */
  ghost predicate TailSound(t: string, tail: (string, nat) -> Option<(nat, nat)>) {
    forall p: nat :: p <= |t| && tail(t, p).Some? ==>
      p < tail(t, p).value.0 <= |t| && EndGroup(t, tail(t, p).value.0) == Some(tail(t, p).value.1)
  }

  /** `TailAt` as a total matcher. */
  function Tail(): (string, nat) -> Option<(nat, nat)> {
    (t: string, p: nat) => if p <= |t| then TailAt(t, p) else None
  }

  lemma TailAtSound(t: string)
    ensures TailSound(t, Tail())
  {
    forall p: nat | p <= |t| && Tail()(t, p).Some?
      ensures p < Tail()(t, p).value.0 <= |t| && EndGroup(t, Tail()(t, p).value.0) == Some(Tail()(t, p).value.1)
    {
      assert Tail()(t, p) == TailAt(t, p);
    }
  }

  /** The whole date pattern at `i`, with the month alternatives `ms` and
      the matcher `tail` for the rest: the groups and the end of the match.
      When every alternative is made of letters, which `[a-z]*` takes as
      well, the rest of the match does not depend on which alternative
      matched, so the group is the first one listed that occurs, ignoring
      case. */
  function RangeWith(t: string, i: nat, ms: seq<string>, tail: (string, nat) -> Option<(nat, nat)>): (r: Option<(DateRange, nat)>)
    requires TailSound(t, tail)
    ensures r.Some? ==> i < r.value.1 <= |t|
    ensures r.Some? ==> FirstAt(Lower(t), ms, i).Some?
    ensures r.Some? ==> var n := |ms[FirstAt(Lower(t), ms, i).value]|;
      && i + n <= |t| && r.value.0.month == t[i..i + n]
      && tail(t, i + n).Some? && r.value.0.end == t[tail(t, i + n).value.0..tail(t, i + n).value.1]
  {
    var m := FirstAt(Lower(t), ms, i);
    if m.None? then None
    else
      var n := |ms[m.value]|;
      var g := tail(t, i + n);
      if g.None? then None
      else Some((DateRange(t[i..i + n], t[g.value.0..g.value.1]), g.value.1))
  }

  /** The month group is the committed alternative as written at the start
      of the match. */
  lemma RangeWithMonth(t: string, i: nat, ms: seq<string>, tail: (string, nat) -> Option<(nat, nat)>)
    requires TailSound(t, tail)
    requires RangeWith(t, i, ms, tail).Some?
    ensures var d := RangeWith(t, i, ms, tail).value.0;
      && FirstAt(Lower(t), ms, i).Some?
      && Lower(d.month) == ms[FirstAt(Lower(t), ms, i).value]
      && OccursAt(t, d.month, i)
  {
    LowerOccursSlice(t, ms[FirstAt(Lower(t), ms, i).value], i);
  }

  /** The end group is "present" in any case or four digits. */
  lemma RangeWithEnd(t: string, i: nat, ms: seq<string>, tail: (string, nat) -> Option<(nat, nat)>)
    requires TailSound(t, tail)
    requires RangeWith(t, i, ms, tail).Some?
    ensures var d := RangeWith(t, i, ms, tail).value.0;
      Lower(d.end) == "present" || (|d.end| == 4 && AllChars(d.end, IsDigit))
  {
    var w := ms[FirstAt(Lower(t), ms, i).value];
    var g := tail(t, i + |w|).value;
    EndShape(t, g.0);
  }

  /** The date pattern with the month alternatives it lists. */
  function RangeAt(t: string, i: nat): (r: Option<(DateRange, nat)>)
    ensures r.Some? ==> i < r.value.1 <= |t|
  {
    TailAtSound(t);
    RangeWith(t, i, Months, Tail())
  }

  function RangeEnd(x: (DateRange, nat)): nat { x.1 }

  lemma RangesAdvance(t: string)
    ensures Advances(t, RangeAt, RangeEnd)
  {
  }

  /** `re.findall` for the date pattern: each match's start and groups, in
      text order, the search resuming at the end of each match, and no
      match left out before, between or after them. */
  function FindAllRanges(t: string): (r: seq<(nat, (DateRange, nat))>)
    ensures forall k :: 0 <= k < |r| ==> RangeAt(t, r[k].0) == Some(r[k].1)
    ensures forall k :: 0 <= k < |r| - 1 ==> r[k].1.1 <= r[k + 1].0
    ensures |r| == 0 <==> NoMatchIn(t, RangeAt, 0, |t| + 1)
    ensures |r| > 0 ==> NoMatchIn(t, RangeAt, 0, r[0].0)
    ensures forall k :: 0 <= k < |r| - 1 ==> NoMatchIn(t, RangeAt, r[k].1.1, r[k + 1].0)
    ensures |r| > 0 ==> NoMatchIn(t, RangeAt, r[|r| - 1].1.1, |t| + 1)
  {
    RangesAdvance(t);
    FindAll(t, 0, RangeAt, RangeEnd)
  }

  /** `extract_date_ranges`: the groups of every match, in text order. */
  function ExtractDateRanges(text: string): (r: seq<DateRange>)
    ensures |r| == |FindAllRanges(text)|
    ensures |r| == 0 <==> NoMatchIn(text, RangeAt, 0, |text| + 1)
  {
    Map(FindAllRanges(text), RangeGroups)
  }

  /** Wherever the date pattern matches, that place lies within a reported
      match: a range that starts at `i` is reported unless it begins inside
      an earlier reported range. */
  lemma DateRangeReported(text: string, i: nat)
    requires i <= |text| && RangeAt(text, i).Some?
    ensures Covered(FindAllRanges(text), RangeEnd, i)
  {
    RangesAdvance(text);
    FindAllCovers(text, 0, RangeAt, RangeEnd, i);
  }

  function RangeGroups(m: (nat, (DateRange, nat))): DateRange { m.1.0 }

  lemma SepBeforeSept()
    ensures |Months[8]| <= |Months[9]| && Months[9][..|Months[8]|] == Months[8]
  {
  }

  /** Only "sept" among the months has four letters. */
  lemma MonthLengths(m: nat)
    requires m < |Months|
    ensures |Months[m]| == if m == 9 then 4 else 3
  {
  }

  /** A word spelt with lower-case letters. */
  predicate LowerWord(w: string) {
    forall k :: 0 <= k < |w| ==> IsLower(w[k])
  }

  /** Every alternative is spelt with lower-case letters. */
  predicate LetterWords(ms: seq<string>) {
    forall m :: 0 <= m < |ms| ==> LowerWord(ms[m])
  }

  lemma MonthsAreLetterWords()
    ensures LetterWords(Months)
  {
    forall m | 0 <= m < |Months|
      ensures LowerWord(Months[m])
    {
      forall k | 0 <= k < |Months[m]|
        ensures IsLower(Months[m][k])
      {
        MonthLetters(m, k);
      }
    }
  }

  lemma MonthLetters(m: nat, k: nat)
    requires m < |Months| && k < |Months[m]|
    ensures IsLower(Months[m][k])
  {
  }

  /** Where an alternative of letters occurs, ignoring case, the text holds
      letters. */
  lemma LetterSpan(t: string, i: nat, w: string)
    requires OccursAt(Lower(t), w, i) && LowerWord(w)
    ensures forall k :: i <= k < i + |w| ==> IsLetter(t[k])
  {
    forall k | i <= k < i + |w|
      ensures IsLetter(t[k])
    {
      assert Lower(t)[k] == w[k - i];
    }
  }

  /** `[a-z]*` takes letters wherever it starts among them, so the rest of
      the pattern matches the same way from any of them. */
  lemma TailAtLetters(t: string, p: nat, q: nat)
    requires p <= q <= |t| && forall k :: p <= k < q ==> IsLetter(t[k])
    ensures TailAt(t, p) == TailAt(t, q)
  {
    HeadEndLetters(t, p, q);
    TailAtSameHead(t, p, q);
  }

  lemma HeadEndLetters(t: string, p: nat, q: nat)
    requires p <= q <= |t| && forall k :: p <= k < q ==> IsLetter(t[k])
    ensures HeadEnd(t, p) == HeadEnd(t, q)
  {
    RunEndAt(t, p, RunEnd(t, q, IsLetter), IsLetter);
  }

  lemma TailAtSameHead(t: string, p: nat, q: nat)
    requires p <= |t| && q <= |t| && HeadEnd(t, p) == HeadEnd(t, q)
    ensures TailAt(t, p) == TailAt(t, q)
  {
  }

  /** Committing to the first listed month loses nothing: whenever any
      listed month occurs at `i`, ignoring case, and the rest of the
      pattern matches after it, the date pattern matches at `i` and ends
      where that reading ends. A backtracking engine that tried the later
      alternatives could not find more. */
  lemma RangeAtAnyMonth(t: string, i: nat, j: nat)
    requires j < |Months| && OccursAt(Lower(t), Months[j], i)
    requires TailAt(t, i + |Months[j]|).Some?
    ensures RangeAt(t, i).Some? && RangeAt(t, i).value.1 == TailAt(t, i + |Months[j]|).value.1
  {
    MonthsAreLetterWords();
    TailAtSound(t);
    TailIsTailAt(t);
    RangeWithAny(t, i, Months, Tail(), j);
  }

  lemma TailIsTailAt(t: string)
    ensures forall p: nat :: p <= |t| ==> Tail()(t, p) == TailAt(t, p)
  {
  }

  /** `RangeAtAnyMonth` for any alternatives made of letters and the tail
      matcher of the date pattern. */
  lemma RangeWithAny(t: string, i: nat, ms: seq<string>, tail: (string, nat) -> Option<(nat, nat)>, j: nat)
    requires LetterWords(ms) && j < |ms| && OccursAt(Lower(t), ms[j], i)
    requires TailSound(t, tail) && forall p: nat :: p <= |t| ==> tail(t, p) == TailAt(t, p)
    requires TailAt(t, i + |ms[j]|).Some?
    ensures RangeWith(t, i, ms, tail).Some? && RangeWith(t, i, ms, tail).value.1 == TailAt(t, i + |ms[j]|).value.1
  {
    FirstAtSome(Lower(t), ms, i, j);
    var m := FirstAt(Lower(t), ms, i).value;
    AlternativesAgree(t, i, ms, m, j);
    assert tail(t, i + |ms[m]|) == TailAt(t, i + |ms[m]|);
    RangeWithFirst(t, i, ms, tail, m, TailAt(t, i + |ms[j]|).value.1);
  }

  lemma FirstAtSome(t: string, ws: seq<string>, i: nat, j: nat)
    requires j < |ws| && OccursAt(t, ws[j], i)
    ensures FirstAt(t, ws, i).Some?
  {
  }

  /** Two listed alternatives of letters that both occur at `i` leave the
      rest of the pattern the same text to match. */
  lemma AlternativesAgree(t: string, i: nat, ms: seq<string>, a: nat, b: nat)
    requires LetterWords(ms) && a < |ms| && b < |ms|
    requires OccursAt(Lower(t), ms[a], i) && OccursAt(Lower(t), ms[b], i)
    ensures i + |ms[a]| <= |t| && i + |ms[b]| <= |t| && TailAt(t, i + |ms[a]|) == TailAt(t, i + |ms[b]|)
  {
    LetterSpan(t, i, ms[a]);
    LetterSpan(t, i, ms[b]);
    SameHeadOverLetters(t, i, i + |ms[a]|, i + |ms[b]|);
    TailAtSameHead(t, i + |ms[a]|, i + |ms[b]|);
  }

  lemma SameHeadOverLetters(t: string, i: nat, a: nat, b: nat)
    requires i <= a <= |t| && i <= b <= |t|
    requires forall k :: i <= k < a ==> IsLetter(t[k])
    requires forall k :: i <= k < b ==> IsLetter(t[k])
    ensures HeadEnd(t, a) == HeadEnd(t, b)
  {
    if a <= b {
      HeadEndLetters(t, a, b);
    } else {
      HeadEndLetters(t, b, a);
    }
  }

  /** The date pattern goes on with the rest after the committed
      alternative. */
  lemma RangeWithFirst(t: string, i: nat, ms: seq<string>, tail: (string, nat) -> Option<(nat, nat)>, m: nat, e: nat)
    requires TailSound(t, tail) && FirstAt(Lower(t), ms, i) == Some(m)
    requires tail(t, i + |ms[m]|).Some? && tail(t, i + |ms[m]|).value.1 == e
    ensures RangeWith(t, i, ms, tail).Some? && RangeWith(t, i, ms, tail).value.1 == e
  {
  }

  /** The committed month is never "sept": "sep" is listed before it and
      matches wherever "sept" does. */
  lemma NeverSept(t: string, i: nat)
    requires FirstAt(t, Months, i).Some?
    ensures Months[FirstAt(t, Months, i).value] != "sept"
  {
    SepBeforeSept();
    PrefixShadows(t, Months, i, 8, 9);
    MonthLengths(FirstAt(t, Months, i).value);
  }

  /** Each range's month group is a listed month other than "sept" as
      written, ignoring case, and its end group is "present" in any case or
      four digits. */
  lemma RangeShape(t: string, i: nat)
    requires RangeAt(t, i).Some?
    ensures var d := RangeAt(t, i).value.0;
      && (exists m :: 0 <= m < |Months| && Lower(d.month) == Months[m]) && Lower(d.month) != "sept"
      && OccursAt(t, d.month, i)
      && (Lower(d.end) == "present" || (|d.end| == 4 && AllChars(d.end, IsDigit)))
  {
    TailAtSound(t);
    RangeWithMonth(t, i, Months, Tail());
    RangeWithEnd(t, i, Months, Tail());
    NeverSept(Lower(t), i);
  }

  /** Every reported range has the shape of `RangeShape`. */
  lemma DateRangesShape(text: string, k: nat)
    requires k < |ExtractDateRanges(text)|
    ensures var d := ExtractDateRanges(text)[k];
      && (exists m :: 0 <= m < |Months| && Lower(d.month) == Months[m]) && Lower(d.month) != "sept"
      && (Lower(d.end) == "present" || (|d.end| == 4 && AllChars(d.end, IsDigit)))
  {
    RangeShape(text, FindAllRanges(text)[k].0);
  }

  // ---------------------------------------------------------------------
  // Highlights and the record
  // ---------------------------------------------------------------------

  /** A sentence longer than twenty characters once stripped. */
  predicate LongSentence(s: string) { |Strip(s)| > 20 }

  /** `extract_experience_descriptions`, with the NLP model's sentences of
      the section as input: the long ones, stripped, in order. */
  function ExperienceDescriptions(sentences: seq<string>): (r: seq<string>)
    ensures forall k :: 0 <= k < |r| ==> |r[k]| > 20 && Trimmed(r[k])
  {
    FilterSatisfies(sentences, LongSentence);
    Map(Filter(sentences, LongSentence), Strip)
  }

  /** A highlight is exactly a long sentence, stripped. */
  lemma DescriptionsMember(sentences: seq<string>, h: string)
    ensures h in ExperienceDescriptions(sentences) <==> exists s :: s in sentences && LongSentence(s) && Strip(s) == h
  {
    MapFilterMember(sentences, LongSentence, Strip, h);
  }

  /** What `extract_experience` returns. */
  datatype Experience = Experience(rawText: string, highlights: seq<string>)

  /** `extract_experience`: `sentences` stands for the NLP model's sentence
      split of a text. */
  function ExtractExperience(text: string, sentences: string -> seq<string>): Experience {
    var section := ExtractExperienceSection(text);
    if section == "" then Experience("", [])
    else Experience(Strip(section), ExperienceDescriptions(sentences(section)))
  }

  /** A non-empty section starts, ignoring case, with a keyword that occurs. */
  lemma SectionBegins(text: string, ks: seq<string>)
    requires SectionWith(text, ks) != ""
    ensures exists j :: 0 <= j < |ks| && OccursAt(Lower(SectionWith(text, ks)), ks[j], 0)
  {
    var t := Lower(text);
    var j := FirstPresent(t, ks).value;
    var i := IndexOf(t, ks[j]).value;
    assert SectionWith(text, ks) == text[i..];
    LowerOccursSuffix(text, ks[j], i);
  }

  /** With keywords that start with a non-blank, a non-empty section starts
      with a non-blank too. */
  lemma SectionHeadNotSpace(text: string, ks: seq<string>)
    requires forall j :: 0 <= j < |ks| ==> |ks[j]| > 0 && !IsSpace(ks[j][0])
    requires SectionWith(text, ks) != ""
    ensures !IsSpace(SectionWith(text, ks)[0])
  {
    var r := SectionWith(text, ks);
    SectionBegins(text, ks);
    var j :| 0 <= j < |ks| && OccursAt(Lower(r), ks[j], 0);
    assert Lower(r)[0] == ks[j][0];
  }

  /** Every keyword starts with a letter. */
  lemma KeywordsStartWithLetters(j: nat)
    requires j < |ExperienceKeywords|
    ensures |ExperienceKeywords[j]| > 0 && IsLetter(ExperienceKeywords[j][0])
  {
  }

  /** The empty record comes back exactly when no keyword occurs, ignoring
      case. Otherwise the raw text is the stripped section, which is not
      empty because the section starts with a keyword, and the highlights
      are the long sentences of the section. */
  lemma ExperienceResult(text: string, sentences: string -> seq<string>)
    ensures ExtractExperience(text, sentences) == Experience("", []) <==>
              forall j :: 0 <= j < |ExperienceKeywords| ==> !Contains(Lower(text), ExperienceKeywords[j])
    ensures var section := ExtractExperienceSection(text);
      section != "" ==>
        && ExtractExperience(text, sentences).rawText == Strip(section) != ""
        && ExtractExperience(text, sentences).highlights == ExperienceDescriptions(sentences(section))
  {
    var ks := ExperienceKeywords;
    var section := ExtractExperienceSection(text);
    forall j | 0 <= j < |ks| ensures |ks[j]| > 0 && !IsSpace(ks[j][0]) {
      KeywordsStartWithLetters(j);
    }
    SectionEmptyIff(text, ks);
    if section != "" {
      SectionHeadNotSpace(text, ks);
      assert StripBegin(section) == 0;
    }
  }
}
