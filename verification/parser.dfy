/** The simpler resume parser: a first e-mail address, a first phone number,
    a fixed list of skills found by substring search, and the record that
    gathers them with the first person name that the NLP model reports. */
module ResumeParser {
  import opened Wrappers
  import opened Text
  import opened Collections

  // ---------------------------------------------------------------------
  // E-mail
  // ---------------------------------------------------------------------

  /** `[a-zA-Z0-9+_.-]`: a character before the `@`. */
  predicate IsAddressChar(c: char) {
    IsAlnum(c) || c == '+' || c == '_' || c == '.' || c == '-'
  }

  /** `[a-zA-Z0-9.-]`: a character after the `@`. */
  predicate IsHostChar(c: char) {
    IsAlnum(c) || c == '.' || c == '-'
  }

  /** `[a-zA-Z0-9+_.-]+@[a-zA-Z0-9.-]+` tried at `i`. The `@` is in neither
      class, so the greedy first run must stop exactly at the `@`; the second
      run takes everything it can. Returns the index of the `@` and the end. */
  function AddressAt(t: string, i: nat): (r: Option<(nat, nat)>)
    ensures r.Some? ==> i < r.value.0 && r.value.0 + 1 < r.value.1 <= |t| && t[r.value.0] == '@'
    ensures r.Some? ==> forall k :: i <= k < r.value.0 ==> IsAddressChar(t[k])
    ensures r.Some? ==> forall k :: r.value.0 < k < r.value.1 ==> IsHostChar(t[k])
    ensures r.Some? ==> r.value.1 == |t| || !IsHostChar(t[r.value.1])
  {
    if i < |t| && IsAddressChar(t[i]) then
      var a := RunEnd(t, i, IsAddressChar);
      if a < |t| && t[a] == '@' then
        var e := RunEnd(t, a + 1, IsHostChar);
        if e > a + 1 then Some((a, e)) else None
      else None
    else None
  }

  function AddressMatcher(): (string, nat) -> Option<(nat, nat)> {
    (t, i) => AddressAt(t, i)
  }

  function AddressSearch(text: string): Option<(nat, (nat, nat))> {
    Leftmost(text, 0, AddressMatcher())
  }

  /** `extract_email`: the first match of `re.findall`, which is the
      leftmost one. */
  function ExtractEmail(text: string): Option<string> {
    var found := AddressSearch(text);
    if found.None? then None else Some(text[found.value.0..found.value.1.1])
  }

  /** One way the e-mail pattern can match from `i`, with no greediness:
      address characters up to the `@` at `a`, then host characters up to
      `e`. */
  predicate AddressMatch(t: string, i: nat, a: nat, e: nat) {
    && i < a && a + 1 < e <= |t| && t[a] == '@'
    && (forall k :: i <= k < a ==> IsAddressChar(t[k]))
    && (forall k :: a < k < e ==> IsHostChar(t[k]))
  }

  /** The e-mail pattern matches somewhere from `i` on. */
  ghost predicate AddressMatchesAt(t: string, i: nat) {
    exists a: nat, e: nat :: AddressMatch(t, i, a, e)
  }

  /** Every reading of the pattern from `i` is found by `AddressAt`, with
      the same `@` and a host at least as long; what `AddressAt` finds is a
      reading. */
  lemma AddressAtIff(t: string, i: nat, a: nat, e: nat)
    ensures AddressMatch(t, i, a, e) ==> AddressAt(t, i).Some? && AddressAt(t, i).value.0 == a && e <= AddressAt(t, i).value.1
    ensures AddressAt(t, i).Some? <==> AddressMatchesAt(t, i)
  {
    if AddressMatch(t, i, a, e) {
      RunEndAt(t, i, a, IsAddressChar);
      RunEndCovers(t, a + 1, e, IsHostChar);
    }
    if AddressAt(t, i).Some? {
      assert AddressMatch(t, i, AddressAt(t, i).value.0, AddressAt(t, i).value.1);
    }
    if AddressMatchesAt(t, i) {
      var a': nat, e': nat :| AddressMatch(t, i, a', e');
      RunEndAt(t, i, a', IsAddressChar);
      RunEndCovers(t, a' + 1, e', IsHostChar);
    }
  }

  /** There is an address exactly when the pattern has a reading somewhere,
      and the one returned starts at the leftmost place with one. */
  lemma EmailFound(text: string)
    ensures ExtractEmail(text).None? <==> forall i :: 0 <= i <= |text| ==> !AddressMatchesAt(text, i)
    ensures AddressSearch(text).Some? ==>
              && AddressMatchesAt(text, AddressSearch(text).value.0)
              && forall k :: 0 <= k < AddressSearch(text).value.0 ==> !AddressMatchesAt(text, k)
  {
    assert forall i: nat :: AddressMatcher()(text, i) == AddressAt(text, i);
    forall i: nat
      ensures AddressAt(text, i).Some? <==> AddressMatchesAt(text, i)
    {
      AddressAtIff(text, i, 0, 0);
    }
  }

  /** `s` is a non-empty run of address characters, one `@` at `a`, and a
      non-empty run of host characters. */
  predicate AddressParts(s: string, a: nat) {
    && 0 < a < |s| - 1 && s[a] == '@'
    && (forall k :: 0 <= k < a ==> IsAddressChar(s[k]))
    && (forall k :: a < k < |s| ==> IsHostChar(s[k]))
  }

  /** Neither run holds an `@`: an address has exactly one. */
  lemma OneAt(s: string, a: nat)
    requires AddressParts(s, a)
    ensures forall k :: 0 <= k < |s| && s[k] == '@' ==> k == a
  {
  }

  lemma AddressMatchShape(t: string, i: nat, a: nat, e: nat)
    requires AddressAt(t, i) == Some((a, e))
    ensures AddressParts(t[i..e], a - i)
  {
    var s := t[i..e];
    assert forall k :: 0 <= k < |s| ==> s[k] == t[i + k];
  }

  /** The address is local characters, exactly one `@` and host characters,
      with at least one character on each side of the `@`. */
  lemma EmailShape(text: string)
    requires ExtractEmail(text).Some?
    ensures exists a :: AddressParts(ExtractEmail(text).value, a)
  {
    var found := AddressSearch(text).value;
    assert AddressMatcher()(text, found.0) == AddressAt(text, found.0) == Some(found.1);
    AddressMatchShape(text, found.0, found.1.0, found.1.1);
  }

  // ---------------------------------------------------------------------
  // Phone
  // ---------------------------------------------------------------------

  /** `[\d -]`: a character inside a number. */
  predicate IsPhoneChar(c: char) {
    IsDigit(c) || c == ' ' || c == '-'
  }

  /** `[\d -]{n}\d` at `s`: `n` characters of a number, then a digit. */
  predicate TailFits(t: string, s: nat, n: nat) {
    s + n < |t| && (forall k :: s <= k < s + n ==> IsPhoneChar(t[k])) && IsDigit(t[s + n])
  }

  /** `[\d -]{8,m}\d` from `s`: the greedy run of `m` characters is tried
      first, then shorter ones down to 8, until a digit follows. Returns the
      end of the match, which is the longest that fits. */
  function PhoneTail(t: string, s: nat, m: nat): (r: Option<nat>)
    requires 8 <= m
    ensures r.Some? ==> s + 9 <= r.value <= s + m + 1 && TailFits(t, s, r.value - s - 1)
    ensures r.Some? ==> forall n :: r.value - s - 1 < n <= m ==> !TailFits(t, s, n)
    ensures r.None? <==> forall n :: 8 <= n <= m ==> !TailFits(t, s, n)
    decreases m
  {
    if TailFits(t, s, m) then Some(s + m + 1)
    else if m > 8 then PhoneTail(t, s, m - 1)
    else None
  }

  /** `\+?\d[\d -]{8,12}\d` tried at `i`. A `+` is taken when present:
      giving it back leaves `+` where `\d` is needed. */
  function NumberAt(t: string, i: nat): (r: Option<nat>)
    ensures r.Some? ==> i + 10 <= r.value <= i + 15 && r.value <= |t|
  {
    var p := if i < |t| && t[i] == '+' then i + 1 else i;
    if p < |t| && IsDigit(t[p]) then PhoneTail(t, p + 1, 12) else None
  }

  function NumberMatcher(): (string, nat) -> Option<nat> {
    (t, i) => NumberAt(t, i)
  }

  function NumberSearch(text: string): Option<(nat, nat)> {
    Leftmost(text, 0, NumberMatcher())
  }

  /** `extract_phone`: the leftmost match. */
  function ExtractPhone(text: string): Option<string> {
    var found := NumberSearch(text);
    if found.None? then None else Some(text[found.value.0..found.value.1])
  }

  lemma PhoneFound(text: string)
    ensures ExtractPhone(text).None? <==> forall i :: 0 <= i <= |text| ==> NumberAt(text, i).None?
    ensures NumberSearch(text).Some? ==> forall k :: 0 <= k < NumberSearch(text).value.0 ==> NumberAt(text, k).None?
  {
    assert forall i: nat :: NumberMatcher()(text, i) == NumberAt(text, i);
  }

  /** `n` looks like a number: 10 to 15 characters, a `+` or a digit first,
      a digit last, digits, blanks and hyphens between. */
  predicate PhoneLike(n: string) {
    && 10 <= |n| <= 15
    && (n[0] == '+' || IsDigit(n[0]))
    && IsDigit(n[|n| - 1])
    && forall k :: 0 < k < |n| - 1 ==> IsPhoneChar(n[k])
  }

  lemma NumberMatchShape(t: string, i: nat, e: nat)
    requires NumberAt(t, i) == Some(e)
    ensures PhoneLike(t[i..e])
  {
    var n := t[i..e];
    assert forall k :: 0 <= k < |n| ==> n[k] == t[i + k];
  }

  /** The number has the shape of the pattern. */
  lemma PhoneShape(text: string)
    requires ExtractPhone(text).Some?
    ensures PhoneLike(ExtractPhone(text).value)
  {
    var found := NumberSearch(text).value;
    assert NumberMatcher()(text, found.0) == NumberAt(text, found.0) == Some(found.1);
    NumberMatchShape(text, found.0, found.1);
  }

  /** Ten digits in a row always make a number. */
  lemma TenDigitsFound(text: string, p: nat)
    requires p + 10 <= |text| && forall k :: p <= k < p + 10 ==> IsDigit(text[k])
    ensures ExtractPhone(text).Some?
  {
    assert TailFits(text, p + 1, 8);
    assert NumberMatcher()(text, p).Some?;
    LeftmostFinds(text, NumberMatcher(), p);
  }

  // ---------------------------------------------------------------------
  // Skills
  // ---------------------------------------------------------------------

  /** The skills the parser looks for, in the order it reports them. */
  const PredefinedSkills: seq<string> := ["Python", "Java", "Machine Learning", "SQL", "React", "Node.js"]

  /** The skills of `skills` whose lowered form occurs in the lowered text,
      in list order and as written in the list. */
  function SkillsListed(skills: seq<string>, text: string): (r: seq<string>)
    ensures forall s :: s in r <==> s in skills && Contains(Lower(text), Lower(s))
  {
    var p := s => Contains(Lower(text), Lower(s));
    forall s ensures s in Filter(skills, p) <==> s in skills && p(s) {
      FilterMember(skills, p, s);
    }
    Filter(skills, p)
  }

  /** The skills come out in list order: entry `k` is the list entry at the
      `k`-th index that passes. */
  lemma SkillsInListOrder(skills: seq<string>, text: string)
    ensures var idx := KeptIndices(skills, s => Contains(Lower(text), Lower(s)), 0);
      && |SkillsListed(skills, text)| == |idx|
      && forall k :: 0 <= k < |idx| ==> SkillsListed(skills, text)[k] == skills[idx[k]]
  {
    FilterKept(skills, s => Contains(Lower(text), Lower(s)), 0);
    assert skills[0..] == skills;
  }

  /** `extract_skills`. */
  function ExtractSkills(text: string): seq<string> {
    SkillsListed(PredefinedSkills, text)
  }

  /** Matching is by substring: a text that mentions JavaScript yields Java. */
  lemma JavascriptYieldsJava(text: string)
    requires Contains(Lower(text), "javascript")
    ensures "Java" in ExtractSkills(text)
  {
    assert "javascript"[0..4] == "java";
    ContainsInner(Lower(text), "javascript", 0, 4);
    assert Lower("Java") == "java";
  }

  // ---------------------------------------------------------------------
  // The parsed record
  // ---------------------------------------------------------------------

  /** A named entity reported by the NLP model, in document order. */
  datatype Entity = Entity(tag: string, text: string)

  /** The text of the first entity labelled PERSON. */
  function FirstPerson(ents: seq<Entity>): (r: Option<string>)
    ensures r.None? <==> forall k :: 0 <= k < |ents| ==> ents[k].tag != "PERSON"
    ensures r.Some? ==> exists k :: 0 <= k < |ents| && ents[k].tag == "PERSON" && ents[k].text == r.value
                          && forall j :: 0 <= j < k ==> ents[j].tag != "PERSON"
  {
    if |ents| == 0 then None
    else if ents[0].tag == "PERSON" then Some(ents[0].text)
    else
      var r := FirstPerson(ents[1..]);
      assert forall k :: 1 <= k < |ents| ==> ents[k] == ents[1..][k - 1];
      r
  }

  /** The four fields of `extract_resume_info`. */
  datatype ResumeInfo = ResumeInfo(name: Option<string>, email: Option<string>, phone: Option<string>, skills: seq<string>)

  /** `extract_resume_info`, with the entities of the NLP model as input. */
  function ExtractResumeInfo(text: string, ents: seq<Entity>): (r: ResumeInfo)
    ensures r.name == FirstPerson(ents)
    ensures r.name.None? <==> forall k :: 0 <= k < |ents| ==> ents[k].tag != "PERSON"
    ensures r.email == ExtractEmail(text) && r.phone == ExtractPhone(text) && r.skills == ExtractSkills(text)
  {
    ResumeInfo(FirstPerson(ents), ExtractEmail(text), ExtractPhone(text), ExtractSkills(text))
  }
}
