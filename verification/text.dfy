/** Character classes and string operations shared by every extractor:
    Python's whitespace set, ASCII word characters, case mapping, `strip`,
    `split`, `join`, substring search and the `\b` word boundary. */
module Text {
  import opened Wrappers

  // ---------------------------------------------------------------------
  // Character classes
  // ---------------------------------------------------------------------

  /** Python's `str.isspace()`: the characters `\s` matches in a str pattern
      and the characters `strip()` and `split()` treat as whitespace. */
  predicate IsSpace(c: char) {
    var n := c as int;
    || n == 0x20 || 0x09 <= n <= 0x0D || 0x1C <= n <= 0x1F
    || n == 0x85 || n == 0xA0 || n == 0x1680 || 0x2000 <= n <= 0x200A
    || n == 0x2028 || n == 0x2029 || n == 0x202F || n == 0x205F || n == 0x3000
  }

  predicate IsDigit(c: char) { '0' <= c <= '9' }
  predicate IsUpper(c: char) { 'A' <= c <= 'Z' }
  predicate IsLower(c: char) { 'a' <= c <= 'z' }
  predicate IsLetter(c: char) { IsUpper(c) || IsLower(c) }
  predicate IsAlnum(c: char) { IsLetter(c) || IsDigit(c) }

  /** `\w` on ASCII text: letters, digits and underscore. */
  predicate IsWordChar(c: char) { IsAlnum(c) || c == '_' }

  predicate NotSpace(c: char) { !IsSpace(c) }

  function LowerChar(c: char): (r: char)
    ensures !IsUpper(r)
    ensures IsLetter(c) <==> IsLetter(r)
    ensures IsWordChar(c) <==> IsWordChar(r)
    ensures IsSpace(c) <==> IsSpace(r)
    ensures !IsUpper(c) ==> r == c
  {
    if IsUpper(c) then (c as int + 32) as char else c
  }

  function UpperChar(c: char): (r: char)
    ensures !IsLower(r)
    ensures IsLetter(c) <==> IsLetter(r)
    ensures !IsLower(c) ==> r == c
  {
    if IsLower(c) then (c as int - 32) as char else c
  }

  /** `str.lower()` restricted to ASCII letters. */
  function Lower(s: string): (r: string)
    ensures |r| == |s|
    ensures forall i :: 0 <= i < |s| ==> r[i] == LowerChar(s[i])
  {
    seq(|s|, i requires 0 <= i < |s| => LowerChar(s[i]))
  }

  /** `str.upper()` restricted to ASCII letters. */
  function Upper(s: string): (r: string)
    ensures |r| == |s|
    ensures forall i :: 0 <= i < |s| ==> r[i] == UpperChar(s[i])
  {
    seq(|s|, i requires 0 <= i < |s| => UpperChar(s[i]))
  }

  predicate IsLowerCase(s: string) {
    forall i :: 0 <= i < |s| ==> !IsUpper(s[i])
  }

  lemma LowerIsLowerCase(s: string)
    ensures IsLowerCase(Lower(s))
  {
  }

  lemma LowerOfLowerCase(s: string)
    requires IsLowerCase(s)
    ensures Lower(s) == s
  {
  }

  lemma LowerIdempotent(s: string)
    ensures Lower(Lower(s)) == Lower(s)
  {
    LowerIsLowerCase(s);
    LowerOfLowerCase(Lower(s));
  }

  lemma LowerAppend(a: string, b: string)
    ensures Lower(a + b) == Lower(a) + Lower(b)
  {
    var l, r := Lower(a + b), Lower(a) + Lower(b);
    assert |l| == |r|;
    assert forall k :: 0 <= k < |l| ==> l[k] == r[k];
  }

  lemma LowerSlice(s: string, i: int, j: int)
    requires 0 <= i <= j <= |s|
    ensures Lower(s[i..j]) == Lower(s)[i..j]
  {
  }

  // ---------------------------------------------------------------------
  // Runs of one character class
  // ---------------------------------------------------------------------

  predicate AllChars(s: string, p: char -> bool) {
    forall i :: 0 <= i < |s| ==> p(s[i])
  }

  /** The end of the longest run of characters satisfying `p` that starts at `i`. */
  function RunEnd(t: string, i: nat, p: char -> bool): (j: nat)
    requires i <= |t|
    ensures i <= j <= |t|
    ensures forall k :: i <= k < j ==> p(t[k])
    ensures j == |t| || !p(t[j])
    decreases |t| - i
  {
    if i < |t| && p(t[i]) then RunEnd(t, i + 1, p) else i
  }

  /** A run that stops at a character outside the class ends where `RunEnd`
      says. */
  lemma RunEndAt(t: string, i: nat, j: nat, p: char -> bool)
    requires i <= j <= |t|
    requires forall k :: i <= k < j ==> p(t[k])
    requires j == |t| || !p(t[j])
    ensures RunEnd(t, i, p) == j
    decreases j - i
  {
    if i < j {
      RunEndAt(t, i + 1, j, p);
    }
  }

  /** A run of `p` characters from `i` to `j` is part of the longest one. */
  lemma RunEndCovers(t: string, i: nat, j: nat, p: char -> bool)
    requires i <= j <= |t|
    requires forall k :: i <= k < j ==> p(t[k])
    ensures j <= RunEnd(t, i, p)
    decreases j - i
  {
    if i < j {
      RunEndCovers(t, i + 1, j, p);
    }
  }

  // ---------------------------------------------------------------------
  // strip
  // ---------------------------------------------------------------------

  /** No whitespace at either end. */
  predicate Trimmed(s: string) {
    |s| == 0 || (!IsSpace(s[0]) && !IsSpace(s[|s| - 1]))
  }

  function StripLeft(s: string): (r: string)
    ensures |r| <= |s| && r == s[|s| - |r|..]
    ensures forall k :: 0 <= k < |s| - |r| ==> IsSpace(s[k])
    ensures |r| == 0 || !IsSpace(r[0])
    decreases |s|
  {
    if |s| > 0 && IsSpace(s[0]) then StripLeft(s[1..]) else s
  }

  function StripRight(s: string): (r: string)
    ensures |r| <= |s| && r == s[..|r|]
    ensures forall k :: |r| <= k < |s| ==> IsSpace(s[k])
    ensures |r| == 0 || !IsSpace(r[|r| - 1])
    decreases |s|
  {
    if |s| > 0 && IsSpace(s[|s| - 1]) then StripRight(s[..|s| - 1]) else s
  }

  /** Index of the first non-whitespace character (|s| when there is none). */
  function StripBegin(s: string): (n: nat)
    ensures n <= |s|
    ensures forall k :: 0 <= k < n ==> IsSpace(s[k])
    ensures n < |s| ==> !IsSpace(s[n])
  {
    RunEnd(s, 0, IsSpace)
  }

  /** Index just past the last non-whitespace character, never before `StripBegin`. */
  function StripEnd(s: string): (n: nat)
    ensures StripBegin(s) <= n <= |s|
    ensures forall k :: n <= k < |s| ==> IsSpace(s[k])
    ensures n > StripBegin(s) ==> !IsSpace(s[n - 1])
  {
    var b := StripBegin(s);
    b + |StripRight(s[b..])|
  }

  /** Python's `str.strip()`: the text between the leading and the trailing
      whitespace runs. */
  function Strip(s: string): (r: string)
    ensures Trimmed(r)
    ensures r == s[StripBegin(s)..StripEnd(s)]
  {
    var l := StripLeft(s);
    var d := |s| - |l|;
    assert d < |s| ==> s[d] == l[0];
    assert d == StripBegin(s);
    StripRight(l)
  }

  lemma StripTrimmed(s: string)
    requires Trimmed(s)
    ensures Strip(s) == s
  {
  }

  /** `strip` keeps a character class that the whole string satisfies. */
  lemma StripKeeps(s: string, p: char -> bool)
    requires AllChars(s, p)
    ensures AllChars(Strip(s), p)
  {
    AllCharsSlice(s, p, StripBegin(s), StripEnd(s));
  }

  /** A slice keeps a character class that the whole string satisfies. */
  lemma AllCharsSlice(s: string, p: char -> bool, i: nat, j: nat)
    requires AllChars(s, p) && i <= j <= |s|
    ensures AllChars(s[i..j], p)
  {
    assert forall k :: 0 <= k < j - i ==> s[i..j][k] == s[i + k];
  }

  lemma StripEmpty()
    ensures Strip("") == ""
  {
  }

  // ---------------------------------------------------------------------
  // split and join
  // ---------------------------------------------------------------------

  /** `sep.join(parts)`. */
  function Join(parts: seq<string>, sep: string): string
  {
    if |parts| == 0 then ""
    else if |parts| == 1 then parts[0]
    else parts[0] + sep + Join(parts[1..], sep)
  }

  lemma JoinConsFirst(c: char, a: string, rest: seq<string>, sep: string)
    ensures Join([[c] + a] + rest, sep) == [c] + Join([a] + rest, sep)
  {
    if |rest| > 0 {
      assert ([[c] + a] + rest)[1..] == rest;
      assert ([a] + rest)[1..] == rest;
    }
  }

  /** Python's `s.split(sep)` for a one-character separator: the pieces
      between separators, always at least one. */
  function Split(s: string, sep: char): (r: seq<string>)
    ensures |r| >= 1
    ensures forall k :: 0 <= k < |r| ==> sep !in r[k]
    ensures Join(r, [sep]) == s
    decreases |s|
  {
    if |s| == 0 then [""]
    else
      var rest := Split(s[1..], sep);
      if s[0] == sep then
        assert Join([""] + rest, [sep]) == [sep] + Join(rest, [sep]) by {
          assert ([""] + rest)[1..] == rest;
        }
        assert s == [sep] + s[1..];
        [""] + rest
      else
        JoinConsFirst(s[0], rest[0], rest[1..], [sep]);
        assert [rest[0]] + rest[1..] == rest;
        assert s == [s[0]] + s[1..];
        [[s[0]] + rest[0]] + rest[1..]
  }

  /** Joining pieces that contain no separator and splitting again gives the
      pieces back: `split` inverts `join`. */
  lemma {:induction false} SplitJoin(parts: seq<string>, sep: char)
    requires |parts| >= 1
    requires forall k :: 0 <= k < |parts| ==> sep !in parts[k]
    ensures Split(Join(parts, [sep]), sep) == parts
    decreases |parts|, |parts[0]|
  {
    if |parts[0]| == 0 {
      if |parts| == 1 {
      } else {
        var tail := Join(parts[1..], [sep]);
        assert Join(parts, [sep]) == [sep] + tail;
        assert ([sep] + tail)[1..] == tail;
        SplitJoin(parts[1..], sep);
        assert parts == [""] + parts[1..];
      }
    } else {
      var p0 := parts[0];
      var shorter := [p0[1..]] + parts[1..];
      assert shorter[1..] == parts[1..];
      forall k | 0 <= k < |shorter| ensures sep !in shorter[k] {
        if k == 0 {
          assert forall c :: c in p0[1..] ==> c in p0;
        } else {
          assert shorter[k] == parts[k];
        }
      }
      SplitJoin(shorter, sep);
      JoinConsFirst(p0[0], p0[1..], parts[1..], [sep]);
      assert [p0[0]] + p0[1..] == p0;
      assert [p0] + parts[1..] == parts;
      var s := Join(parts, [sep]);
      assert s == [p0[0]] + Join(shorter, [sep]);
      assert s[1..] == Join(shorter, [sep]);
      assert s[0] != sep;
    }
  }

  /** Python's `s.split()`: the maximal runs of non-whitespace characters. */
  function Words(s: string): (r: seq<string>)
    ensures forall k :: 0 <= k < |r| ==> |r[k]| > 0 && AllChars(r[k], NotSpace)
    decreases |s|
  {
    var a := RunEnd(s, 0, IsSpace);
    if a == |s| then []
    else
      var b := RunEnd(s, a, NotSpace);
      [s[a..b]] + Words(s[b..])
  }

  /** Words joined by single spaces have no whitespace at either end. */
  lemma JoinWordsTrimmed(ws: seq<string>)
    requires forall k :: 0 <= k < |ws| ==> |ws[k]| > 0 && AllChars(ws[k], NotSpace)
    ensures Trimmed(Join(ws, " "))
  {
    if |ws| > 1 {
      JoinWordsTrimmed(ws[1..]);
      var tail := Join(ws[1..], " ");
      assert |tail| > 0 by { JoinNonEmpty(ws[1..]); }
    }
  }

  lemma JoinNonEmpty(ws: seq<string>)
    requires |ws| > 0 && |ws[0]| > 0
    ensures |Join(ws, " ")| > 0
  {
  }

  /** The only whitespace is single `' '` characters. */
  predicate SingleSpaced(s: string) {
    && (forall i :: 0 <= i < |s| && IsSpace(s[i]) ==> s[i] == ' ')
    && (forall i :: 0 <= i < |s| - 1 ==> !(IsSpace(s[i]) && IsSpace(s[i + 1])))
  }

  /** Every character of `r` that is not whitespace occurs in `s`. */
  predicate SolidFrom(r: string, s: string) {
    forall c :: c in r && !IsSpace(c) ==> c in s
  }

  /** `re.sub(r'\s+', ' ', s)`: every whitespace run becomes one space. */
  function CollapseSpaces(s: string): (r: string)
    ensures SingleSpaced(r)
    ensures |s| > 0 && !IsSpace(s[0]) ==> |r| > 0 && r[0] == s[0]
    ensures |s| > 0 && IsSpace(s[0]) ==> |r| > 0 && r[0] == ' '
    ensures SolidFrom(r, s)
    decreases |s|
  {
    if |s| == 0 then ""
    else if IsSpace(s[0]) then
      var b := RunEnd(s, 0, IsSpace);
      " " + CollapseSpaces(s[b..])
    else [s[0]] + CollapseSpaces(s[1..])
  }

  /** The words of `s` joined by single spaces, with one space in front when
      `s` starts with whitespace and one at the back when it ends with
      whitespace; a text of whitespace only gives one space. */
  function SpacedWords(s: string): string {
    var ws := Words(s);
    if |ws| == 0 then (if |s| == 0 then "" else " ")
    else (if IsSpace(s[0]) then " " else "") + Join(ws, " ") + (if IsSpace(s[|s| - 1]) then " " else "")
  }

  /** The collapse copies a stretch without whitespace as it is. */
  lemma {:induction false} CollapseWord(s: string, b: nat)
    requires b <= |s| && forall k :: 0 <= k < b ==> !IsSpace(s[k])
    ensures CollapseSpaces(s) == s[..b] + CollapseSpaces(s[b..])
    decreases b
  {
    if b > 0 {
      CollapseWord(s[1..], b - 1);
      CollapseWordCons(s, b);
    }
  }

  lemma CollapseWordCons(s: string, b: nat)
    requires 0 < b <= |s| && !IsSpace(s[0])
    requires CollapseSpaces(s[1..]) == s[1..][..b - 1] + CollapseSpaces(s[1..][b - 1..])
    ensures CollapseSpaces(s) == s[..b] + CollapseSpaces(s[b..])
  {
    CollapseSolidStep(s);
    HeadSplit(s, b, CollapseSpaces(s[b..]));
  }

  lemma HeadSplit<T>(s: seq<T>, b: nat, c: seq<T>)
    requires 0 < b <= |s|
    ensures [s[0]] + (s[1..][..b - 1] + c) == s[..b] + c
    ensures s[1..][b - 1..] == s[b..]
  {
    assert [s[0]] + s[1..][..b - 1] == s[..b];
  }

  lemma CollapseSolidStep(s: string)
    requires |s| > 0 && !IsSpace(s[0])
    ensures CollapseSpaces(s) == [s[0]] + CollapseSpaces(s[1..])
  {
  }

  lemma CollapseSpaceStep(s: string)
    requires |s| > 0 && IsSpace(s[0])
    ensures CollapseSpaces(s) == " " + CollapseSpaces(s[RunEnd(s, 0, IsSpace)..])
  {
  }

  lemma JoinCons(w: string, ws: seq<string>, sep: string)
    requires |ws| > 0
    ensures Join([w] + ws, sep) == w + sep + Join(ws, sep)
  {
    assert ([w] + ws)[1..] == ws;
  }

  /** Collapsing whitespace keeps every word, in order, and puts exactly
      one space between two words, plus one at either end where the text
      had whitespace there. */
  lemma {:induction false} CollapseIsSpacedWords(s: string)
    ensures CollapseSpaces(s) == SpacedWords(s)
    decreases |s|
  {
    var a := RunEnd(s, 0, IsSpace);
    if a < |s| {
      var b := RunEnd(s, a, NotSpace);
      CollapseIsSpacedWords(s[b..]);
      CollapseWordStep(s, a, b);
    } else {
      CollapseLead(s, a);
      assert s[a..] == [];
    }
  }

  /** One word of the induction above: with the rest after the first word
      collapsed to its spaced words, the whole text is too. */
  lemma CollapseWordStep(s: string, a: nat, b: nat)
    requires a == RunEnd(s, 0, IsSpace) && a < |s|
    requires b == RunEnd(s, a, NotSpace)
    requires CollapseSpaces(s[b..]) == SpacedWords(s[b..])
    ensures CollapseSpaces(s) == SpacedWords(s)
  {
    CollapseLead(s, a);
    CollapseFirstWord(s, a, b);
    SpacedWordsStep(s, a, b);
  }

  lemma CollapseFirstWord(s: string, a: nat, b: nat)
    requires a < b <= |s| && forall k :: a <= k < b ==> !IsSpace(s[k])
    ensures CollapseSpaces(s[a..]) == s[a..b] + CollapseSpaces(s[b..])
  {
    CollapseWord(s[a..], b - a);
    HeadTail(s, a, b);
  }

  /** The spaced words of a text that holds a word: the leading space, the
      first word `s[a..b]`, then the spaced words of the rest. */
  lemma SpacedWordsStep(s: string, a: nat, b: nat)
    requires a == RunEnd(s, 0, IsSpace) && a < |s|
    requires b == RunEnd(s, a, NotSpace)
    ensures SpacedWords(s) == (if a > 0 then " " else "") + (s[a..b] + SpacedWords(s[b..]))
  {
    SpacedWordsUnfold(s, a, b);
    SpacedWordsRest(s, a, b);
    Glue3(if a > 0 then " " else "", Join([s[a..b]] + Words(s[b..]), " "), if IsSpace(s[|s| - 1]) then " " else "");
  }

  lemma SpacedWordsUnfold(s: string, a: nat, b: nat)
    requires a == RunEnd(s, 0, IsSpace) && a < |s|
    requires b == RunEnd(s, a, NotSpace)
    ensures SpacedWords(s) == (if a > 0 then " " else "") + Join([s[a..b]] + Words(s[b..]), " ")
                              + (if IsSpace(s[|s| - 1]) then " " else "")
  {
    WordsStep(s, a, b);
  }

  lemma SpacedWordsRest(s: string, a: nat, b: nat)
    requires a == RunEnd(s, 0, IsSpace) && a < |s|
    requires b == RunEnd(s, a, NotSpace)
    ensures Join([s[a..b]] + Words(s[b..]), " ") + (if IsSpace(s[|s| - 1]) then " " else "")
            == s[a..b] + SpacedWords(s[b..])
  {
    var v := s[b..];
    if |v| > 0 {
      SuffixLast(s, b);
    } else {
      assert s[|s| - 1] == s[b - 1];
    }
    JoinSpaced(s[a..b], v, if IsSpace(s[|s| - 1]) then " " else "");
  }

  /** The first word of a text that holds one runs from the end of the
      leading whitespace to the next whitespace. */
  lemma WordsStep(s: string, a: nat, b: nat)
    requires a == RunEnd(s, 0, IsSpace) && a < |s|
    requires b == RunEnd(s, a, NotSpace)
    ensures Words(s) == [s[a..b]] + Words(s[b..])
    ensures IsSpace(s[0]) <==> a > 0
  {
  }

  /** A word followed by the rest of the text: joining the word to the rest's
      words, with the text's trailing space, is the word in front of the rest's
      spaced words. */
  lemma JoinSpaced(w: string, v: string, trail: string)
    requires |v| == 0 || IsSpace(v[0])
    requires trail == if |v| > 0 && IsSpace(v[|v| - 1]) then " " else ""
    ensures Join([w] + Words(v), " ") + trail == w + SpacedWords(v)
  {
    if |Words(v)| == 0 {
      assert [w] + Words(v) == [w];
      if |v| == 0 {
        Glue3(w, "", "");
      } else {
        assert RunEnd(v, 0, IsSpace) == |v|;
        assert IsSpace(v[|v| - 1]);
      }
    } else {
      var j := Join(Words(v), " ");
      assert SpacedWords(v) == " " + j + trail;
      JoinCons(w, Words(v), " ");
      Glue4(w, j, trail);
    }
  }

  /** Leading whitespace collapses to one space in front of the rest. */
  lemma CollapseLead(s: string, a: nat)
    requires a == RunEnd(s, 0, IsSpace)
    ensures CollapseSpaces(s) == (if a > 0 then " " else "") + CollapseSpaces(s[a..])
  {
    if a > 0 {
      CollapseSpaceStep(s);
    } else {
      assert s[a..] == s;
    }
  }

  // Sequence bookkeeping, stated apart so that the proofs above stay small.

  lemma SuffixLast<T>(s: seq<T>, b: nat)
    requires b < |s|
    ensures s[b..][|s| - b - 1] == s[|s| - 1]
  {
  }

  lemma HeadTail<T>(s: seq<T>, a: nat, b: nat)
    requires a <= b <= |s|
    ensures s[a..][..b - a] == s[a..b] && s[a..][b - a..] == s[b..]
  {
  }

  lemma Glue3<T>(x: seq<T>, y: seq<T>, z: seq<T>)
    ensures x + (y + z) == x + y + z
  {
  }

  lemma Glue4(w: string, j: string, trail: string)
    ensures w + " " + j + trail == w + (" " + j + trail)
  {
  }

  /** Text whose only whitespace is single spaces is left alone by the collapse. */
  lemma {:induction false} CollapseSingleSpaces(s: string)
    requires SingleSpaced(s)
    ensures CollapseSpaces(s) == s
    decreases |s|
  {
    if |s| > 0 {
      var t := s[1..];
      assert SingleSpaced(t) by {
        forall i | 0 <= i < |t| && IsSpace(t[i]) ensures t[i] == ' ' {
          assert t[i] == s[i + 1];
        }
        forall i | 0 <= i < |t| - 1 ensures !(IsSpace(t[i]) && IsSpace(t[i + 1])) {
          assert t[i] == s[i + 1] && t[i + 1] == s[i + 2];
        }
      }
      CollapseSingleSpaces(t);
      if IsSpace(s[0]) {
        assert s[0] == ' ';
        assert |s| == 1 || !IsSpace(s[1]);
        assert RunEnd(s, 0, IsSpace) == 1;
      }
      assert s == [s[0]] + t;
    }
  }

  // ---------------------------------------------------------------------
  // Substring search
  // ---------------------------------------------------------------------

  /** `w` occurs in `s` starting at index `i`. */
  predicate OccursAt(s: string, w: string, i: int) {
    0 <= i && i + |w| <= |s| && s[i..i + |w|] == w
  }

  /** A character outside the class is not in a string of the class. */
  lemma AllCharsExcludes(s: string, p: char -> bool, c: char)
    requires AllChars(s, p) && !p(c)
    ensures c !in s
  {
  }

  /** What lies in a slice lies in the whole. */
  lemma InSlice<T>(s: seq<T>, a: nat, b: nat, c: T)
    requires a <= b <= |s| && c in s[a..b]
    ensures c in s
  {
    var k :| a <= k < b && s[k] == c;
  }

  /** Stripping adds no character. */
  lemma StripIn(s: string, c: char)
    requires c in Strip(s)
    ensures c in s
  {
    InSlice(s, StripBegin(s), StripEnd(s), c);
  }

  /** An occurrence fixes each character it covers. */
  lemma OccursAtChar(s: string, w: string, i: nat, k: nat)
    requires OccursAt(s, w, i) && k < |w|
    ensures s[i + k] == w[k]
  {
    assert s[i..i + |w|][k] == w[k];
  }

  /** The first occurrence of `w` in `s` at or after `from`. */
  function FindFrom(s: string, w: string, from: nat): (r: Option<nat>)
    ensures r.Some? ==> from <= r.value && OccursAt(s, w, r.value)
    ensures r.Some? ==> forall k :: from <= k < r.value ==> !OccursAt(s, w, k)
    ensures r.None? ==> forall k :: from <= k ==> !OccursAt(s, w, k)
    decreases |s| - from
  {
    if OccursAt(s, w, from) then Some(from)
    else if from >= |s| then None
    else FindFrom(s, w, from + 1)
  }

  /** Python's `s.index(w)` when `w in s`. */
  function IndexOf(s: string, w: string): Option<nat> {
    FindFrom(s, w, 0)
  }

  /** Python's `w in s`. */
  predicate Contains(s: string, w: string) {
    IndexOf(s, w).Some?
  }

  lemma ContainsIff(s: string, w: string)
    ensures Contains(s, w) <==> exists i :: OccursAt(s, w, i)
  {
  }

  lemma ContainsAt(s: string, w: string, i: int)
    requires OccursAt(s, w, i)
    ensures Contains(s, w)
  {
  }

  /** A piece of an occurring word occurs too: text containing "javascript"
      contains "java". */
  lemma ContainsInner(s: string, w: string, a: nat, b: nat)
    requires a <= b <= |w|
    requires Contains(s, w)
    ensures Contains(s, w[a..b])
  {
    var i := IndexOf(s, w).value;
    assert s[i..i + |w|][a..b] == s[i + a..i + b];
    ContainsAt(s, w[a..b], i + a);
  }

  /** Text appended after an occurrence keeps it. */
  lemma ContainsAppend(s: string, rest: string, w: string)
    requires Contains(s, w)
    ensures Contains(s + rest, w)
  {
    var i := IndexOf(s, w).value;
    assert (s + rest)[i..i + |w|] == s[i..i + |w|];
    ContainsAt(s + rest, w, i);
  }

  /** An occurrence inside `s[b..e]` is an occurrence in that slice. */
  lemma OccursInside(s: string, w: string, i: nat, b: nat, e: nat)
    requires OccursAt(s, w, i) && b <= i && i + |w| <= e <= |s|
    ensures OccursAt(s[b..e], w, i - b)
  {
    var t, c := s[b..e], i - b;
    assert |t| == e - b && c + |w| <= |t|;
    forall k | 0 <= k < |w| ensures t[c..c + |w|][k] == w[k] {
      assert t[c + k] == s[i + k] == s[i..i + |w|][k];
    }
  }

  /** A stretch that begins and ends with non-whitespace lies inside the
      stripped part. */
  lemma StripWindow(s: string, i: nat, n: nat)
    requires 0 < n && i + n <= |s| && !IsSpace(s[i]) && !IsSpace(s[i + n - 1])
    ensures StripBegin(s) <= i && i + n <= StripEnd(s)
  {
  }

  /** `strip` cannot cut into a word without whitespace. */
  lemma StripContains(s: string, w: string)
    requires Contains(s, w) && |w| > 0 && AllChars(w, NotSpace)
    ensures Contains(Strip(s), w)
  {
    var i := IndexOf(s, w).value;
    assert s[i] == w[0] && s[i + |w| - 1] == w[|w| - 1];
    StripWindow(s, i, |w|);
    OccursInside(s, w, i, StripBegin(s), StripEnd(s));
    ContainsAt(Strip(s), w, i - StripBegin(s));
  }

  /** An occurrence in the lowered text at `i` starts the lowered suffix
      from `i`. */
  lemma LowerOccursSuffix(s: string, w: string, i: nat)
    requires OccursAt(Lower(s), w, i)
    ensures OccursAt(Lower(s[i..]), w, 0)
  {
    assert s[i..] == s[i..|s|];
    LowerSlice(s, i, |s|);
    assert Lower(s[i..])[0..|w|] == Lower(s)[i..i + |w|];
  }

  /** An occurrence in the lowered text is the lowered slice it covers. */
  lemma LowerOccursSlice(s: string, w: string, i: nat)
    requires OccursAt(Lower(s), w, i)
    ensures Lower(s[i..i + |w|]) == w
  {
    LowerSlice(s, i, i + |w|);
  }

  predicate StartsWith(s: string, p: string) {
    OccursAt(s, p, 0)
  }

  // ---------------------------------------------------------------------
  // Word boundaries (the regex `\b`)
  // ---------------------------------------------------------------------

  /** `\b` at index `i`: exactly one of the characters around `i` is a word
      character (a missing neighbour counts as a non-word character). */
  predicate IsBoundary(s: string, i: int) {
    0 <= i <= |s| && ((i > 0 && IsWordChar(s[i - 1])) != (i < |s| && IsWordChar(s[i])))
  }

  /** `\bw\b` matches at `i`. */
  predicate WholeWordAt(s: string, w: string, i: int) {
    OccursAt(s, w, i) && IsBoundary(s, i) && IsBoundary(s, i + |w|)
  }

  /** The first whole-word occurrence of `w` at or after `from`. */
  function FindWordFrom(s: string, w: string, from: nat): (r: Option<nat>)
    ensures r.Some? ==> from <= r.value && WholeWordAt(s, w, r.value)
    ensures r.Some? ==> forall k :: from <= k < r.value ==> !WholeWordAt(s, w, k)
    ensures r.None? ==> forall k :: from <= k ==> !WholeWordAt(s, w, k)
    decreases |s| - from
  {
    if WholeWordAt(s, w, from) then Some(from)
    else if from >= |s| then None
    else FindWordFrom(s, w, from + 1)
  }

  /** `re.search(r'\b' + re.escape(w) + r'\b', s)` succeeds. */
  predicate HasWholeWord(s: string, w: string) {
    FindWordFrom(s, w, 0).Some?
  }

  lemma HasWholeWordIff(s: string, w: string)
    ensures HasWholeWord(s, w) <==> exists i :: WholeWordAt(s, w, i)
  {
  }

  /** Case changes neither word boundaries nor, for a lower-case word, whether
      it occurs in lowered text. */
  lemma BoundaryLower(s: string, i: int)
    ensures IsBoundary(s, i) <==> IsBoundary(Lower(s), i)
  {
  }

  lemma HasWholeWordLowerIdempotent(s: string, w: string)
    ensures HasWholeWord(Lower(Lower(s)), w) == HasWholeWord(Lower(s), w)
  {
    LowerIdempotent(s);
  }

  /** A whole-word occurrence is in particular an occurrence. */
  lemma WholeWordContains(s: string, w: string)
    requires HasWholeWord(s, w)
    ensures Contains(s, w)
  {
    var i := FindWordFrom(s, w, 0).value;
    ContainsAt(s, w, i);
  }

  // ---------------------------------------------------------------------
  // Leftmost search for a fixed pattern
  // ---------------------------------------------------------------------

  /** The leftmost start index at or after `from` at which the matcher `m`
      succeeds, with what it returned there: `re.search` for a pattern whose
      attempt at one index is `m`. */
  function Leftmost<R>(t: string, from: nat, m: (string, nat) -> Option<R>): (r: Option<(nat, R)>)
    ensures r.Some? ==> from <= r.value.0 <= |t| && m(t, r.value.0) == Some(r.value.1)
    ensures r.Some? ==> forall k :: from <= k < r.value.0 ==> m(t, k).None?
    ensures r.None? ==> forall k :: from <= k <= |t| ==> m(t, k).None?
    decreases |t| + 1 - from
  {
    if from > |t| then None
    else match m(t, from)
      case Some(v) => Some((from, v))
      case None => Leftmost(t, from + 1, m)
  }

  /** The search succeeds, at or before `k`, when the matcher succeeds at `k`. */
  lemma LeftmostFinds<R>(t: string, m: (string, nat) -> Option<R>, k: nat)
    requires k <= |t| && m(t, k).Some?
    ensures Leftmost(t, 0, m).Some? && Leftmost(t, 0, m).value.0 <= k
  {
  }

  /** Every match of `m` in `t` ends after its start and within the text;
      `end` reads the end of a match from what `m` returned. */
  predicate Advances<R>(t: string, m: (string, nat) -> Option<R>, end: R -> nat) {
    forall i :: 0 <= i <= |t| && m(t, i).Some? ==> i < end(m(t, i).value) <= |t|
  }

  /** The matcher `m` succeeds at no index from `a` up to, not including, `b`. */
  predicate NoMatchIn<R>(t: string, m: (string, nat) -> Option<R>, a: nat, b: nat) {
    forall i :: a <= i < b ==> m(t, i).None?
  }

  /** `re.findall` from `from` for a pattern whose attempt at one index is
      `m`: the start of each match and what `m` returned there, the search
      resuming at the end of each match. Nothing is skipped: no match starts
      before the first entry, between the end of one entry and the start of
      the next, or after the end of the last. */
  function FindAll<R>(t: string, from: nat, m: (string, nat) -> Option<R>, end: R -> nat): (r: seq<(nat, R)>)
    requires Advances(t, m, end)
    ensures forall k :: 0 <= k < |r| ==> from <= r[k].0 <= |t| && m(t, r[k].0) == Some(r[k].1)
    ensures forall k :: 0 <= k < |r| - 1 ==> end(r[k].1) <= r[k + 1].0
    ensures |r| == 0 <==> NoMatchIn(t, m, from, |t| + 1)
    ensures |r| > 0 ==> NoMatchIn(t, m, from, r[0].0)
    ensures forall k :: 0 <= k < |r| - 1 ==> NoMatchIn(t, m, end(r[k].1), r[k + 1].0)
    ensures |r| > 0 ==> NoMatchIn(t, m, end(r[|r| - 1].1), |t| + 1)
    decreases |t| + 1 - from
  {
    match Leftmost(t, from, m)
    case None => []
    case Some(found) => [found] + FindAll(t, end(found.1), m, end)
  }

  /** Every place where the matcher succeeds lies within one of the reported
      matches: at its start, or after its start and before its end. */
  lemma {:induction false} FindAllCovers<R>(t: string, from: nat, m: (string, nat) -> Option<R>, end: R -> nat, i: nat)
    requires Advances(t, m, end)
    requires from <= i <= |t| && m(t, i).Some?
    ensures Covered(FindAll(t, from, m, end), end, i)
    decreases |t| + 1 - from
  {
    var l := Leftmost(t, from, m);
    assert l.Some? by {
      if l.None? {
        assert false;
      }
    }
    var found := l.value;
    FindAllStep(t, from, m, end);
    var rest := FindAll(t, end(found.1), m, end);
    if i < found.0 {
      assert false;
    } else if i < end(found.1) {
      CoveredCons(found, rest, end, i);
    } else {
      FindAllCovers(t, end(found.1), m, end, i);
      CoveredCons(found, rest, end, i);
    }
  }

  /** Some match in `r` runs over index `i`. */
  predicate Covered<R>(r: seq<(nat, R)>, end: R -> nat, i: nat) {
    exists k :: 0 <= k < |r| && r[k].0 <= i < end(r[k].1)
  }

  lemma CoveredCons<R>(found: (nat, R), rest: seq<(nat, R)>, end: R -> nat, i: nat)
    requires (found.0 <= i < end(found.1)) || Covered(rest, end, i)
    ensures Covered([found] + rest, end, i)
  {
    var r := [found] + rest;
    if found.0 <= i < end(found.1) {
      assert r[0] == found;
    } else {
      var k :| 0 <= k < |rest| && rest[k].0 <= i < end(rest[k].1);
      assert r[k + 1] == rest[k];
    }
  }

  /** One step of `re.findall`: the leftmost match, then the matches after
      its end. */
  lemma FindAllStep<R>(t: string, from: nat, m: (string, nat) -> Option<R>, end: R -> nat)
    requires Advances(t, m, end) && Leftmost(t, from, m).Some?
    ensures var found := Leftmost(t, from, m).value;
            FindAll(t, from, m, end) == [found] + FindAll(t, end(found.1), m, end)
  {
  }
}
