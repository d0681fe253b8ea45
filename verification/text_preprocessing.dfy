/** `clean_text`: the whitespace collapse, the character filters and the two
    punctuation-spacing substitutions, followed by `strip`. Each regular
    expression substitution is one function over the string; `CleanText`
    composes them in the order the source applies them. */
module TextPreprocessing {
  import opened Text
  import opened Collections

  /** Survives `encode('ascii', errors='ignore')`. */
  predicate IsAscii(c: char) { (c as int) < 0x80 }

  /** The class `[\x20-\x7E]`. */
  predicate IsPrintable(c: char) { 0x20 <= (c as int) <= 0x7E }

  /** The class `[•●]`. */
  predicate IsBullet(c: char) { c == '\U{2022}' || c == '\U{25CF}' }

  /** The punctuation in the keep list `[^\w\s\.,:;\-@()&+/]`. */
  const KeepPunct: string := ".,:;-@()&+/"

  predicate IsKept(c: char) { IsWordChar(c) || IsSpace(c) || c in KeepPunct }

  /** The class `[.,:;!?()]` of both spacing substitutions. */
  predicate IsTight(c: char) { c in ".,:;!?()" }

  /** A character that reaches the output as a non-whitespace character. */
  predicate IsSolidKept(c: char) { IsPrintable(c) && (IsWordChar(c) || c in KeepPunct) }

  /** A character the cleaned text may contain. */
  predicate IsCleanChar(c: char) { IsWordChar(c) || c == ' ' || c in KeepPunct }

  /** The non-whitespace characters, in order. */
  function Solid(s: string): string {
    Filter(s, NotSpace)
  }

  /** No whitespace character is directly followed by a tight punctuation mark. */
  predicate NoSpaceBeforeTight(s: string) {
    forall k :: 0 <= k < |s| - 1 ==> !(IsSpace(s[k]) && IsTight(s[k + 1]))
  }

  /** No tight punctuation mark is directly followed by another. */
  predicate NoTightPair(s: string) {
    forall k :: 0 <= k < |s| - 1 ==> !(IsTight(s[k]) && IsTight(s[k + 1]))
  }

  // ---------------------------------------------------------------------
  // The two spacing substitutions, over any pair of disjoint classes
  // ---------------------------------------------------------------------

  /** The suffix left after dropping the leading characters that satisfy `p`. */
  function DropWhile(s: string, p: char -> bool): (r: string)
    ensures |r| <= |s|
    ensures |r| > 0 ==> !p(r[0])
    decreases |s|
  {
    if |s| > 0 && p(s[0]) then DropWhile(s[1..], p) else s
  }

  /** What `DropWhile` drops is a prefix of `p` characters. */
  lemma {:induction false} DropWhileSuffix(s: string, p: char -> bool)
    ensures DropWhile(s, p) == s[|s| - |DropWhile(s, p)|..]
    ensures forall k :: 0 <= k < |s| - |DropWhile(s, p)| ==> p(s[k])
    decreases |s|
  {
    if |s| > 0 && p(s[0]) {
      DropWhileSuffix(s[1..], p);
      var n := |s| - |DropWhile(s, p)|;
      forall k | 0 <= k < n ensures p(s[k]) {
        if k > 0 {
          assert s[k] == s[1..][k - 1];
        }
      }
    }
  }

  /** `re.sub(r'S+(T)', r'\1', s)` for the classes `sp` (S) and `tp` (T): a run
      of `sp` characters directly in front of a `tp` character is deleted.
      Scanning left to right, an `sp` character that does not start such a
      run is kept. */
  function DeleteRunsBefore(s: string, sp: char -> bool, tp: char -> bool): (r: string)
    requires forall c :: !(sp(c) && tp(c))
    ensures |r| <= |s|
    ensures |s| > 0 ==> |r| > 0 && (tp(r[0]) <==> |DropWhile(s, sp)| > 0 && tp(DropWhile(s, sp)[0]))
    ensures forall k :: 0 <= k < |r| - 1 ==> !(sp(r[k]) && tp(r[k + 1]))
    decreases |s|
  {
    if |s| == 0 then ""
    else
      var t := DropWhile(s, sp);
      if sp(s[0]) && |t| > 0 && tp(t[0]) then
        var rest := DeleteRunsBefore(t[1..], sp, tp);
        var r := [t[0]] + rest;
        assert forall k :: 1 <= k < |r| ==> r[k] == rest[k - 1];
        r
      else
        var rest := DeleteRunsBefore(s[1..], sp, tp);
        var r := [s[0]] + rest;
        assert forall k :: 1 <= k < |r| ==> r[k] == rest[k - 1];
        assert |s| > 1 && sp(s[0]) ==> !tp(rest[0]) by {
          if |s| > 1 && sp(s[0]) {
            assert DropWhile(s, sp) == DropWhile(s[1..], sp);
            if !sp(s[1]) {
              assert DropWhile(s[1..], sp) == s[1..];
            }
          }
        }
        r
  }

  /** `re.sub(r'(T)([^S])', r'\1 \2', s)`: a space goes between a `tp`
      character and a following non-`sp` character. The following character
      is consumed by the match, so it cannot start a match of its own. */
  function SpaceAfter(s: string, sp: char -> bool, tp: char -> bool): (r: string)
    ensures |s| <= |r|
    ensures |s| > 0 ==> |r| > 0 && r[0] == s[0]
    decreases |s|
  {
    if |s| == 0 then ""
    else if tp(s[0]) && |s| > 1 && !sp(s[1]) then [s[0], ' ', s[1]] + SpaceAfter(s[2..], sp, tp)
    else [s[0]] + SpaceAfter(s[1..], sp, tp)
  }

  /** Dropping a prefix of `sp` characters keeps every non-`sp` character. */
  lemma DropWhileSolid(s: string, sp: char -> bool, np: char -> bool)
    requires forall c :: np(c) == !sp(c)
    ensures Filter(DropWhile(s, sp), np) == Filter(s, np)
  {
    var t := DropWhile(s, sp);
    var n := |s| - |t|;
    DropWhileSuffix(s, sp);
    assert s == s[..n] + t;
    FilterAppend(s[..n], t, np);
    FilterNone(s[..n], np);
  }

  /** Filtering a list that starts with `x`. */
  lemma FilterCons<T>(x: T, xs: seq<T>, p: T -> bool)
    ensures Filter([x] + xs, p) == (if p(x) then [x] else []) + Filter(xs, p)
  {
    assert ([x] + xs)[1..] == xs;
  }

  /** Deleting runs removes only `sp` characters: the others keep their order. */
  lemma {:induction false} DeleteRunsSolid(s: string, sp: char -> bool, tp: char -> bool, np: char -> bool)
    requires forall c :: !(sp(c) && tp(c))
    requires forall c :: np(c) == !sp(c)
    ensures Filter(DeleteRunsBefore(s, sp, tp), np) == Filter(s, np)
    decreases |s|
  {
    if |s| > 0 {
      var t := DropWhile(s, sp);
      if sp(s[0]) && |t| > 0 && tp(t[0]) {
        DeleteRunsSolid(t[1..], sp, tp, np);
        DropWhileSolid(s, sp, np);
        assert t == [t[0]] + t[1..];
        FilterCons(t[0], t[1..], np);
        FilterCons(t[0], DeleteRunsBefore(t[1..], sp, tp), np);
      } else {
        DeleteRunsSolid(s[1..], sp, tp, np);
        assert s == [s[0]] + s[1..];
        FilterCons(s[0], s[1..], np);
        FilterCons(s[0], DeleteRunsBefore(s[1..], sp, tp), np);
      }
    }
  }

  /** Deleting runs introduces no new characters. */
  lemma {:induction false} DeleteRunsKeeps(s: string, sp: char -> bool, tp: char -> bool, q: char -> bool)
    requires forall c :: !(sp(c) && tp(c))
    requires AllChars(s, q)
    ensures AllChars(DeleteRunsBefore(s, sp, tp), q)
    decreases |s|
  {
    if |s| > 0 {
      var t := DropWhile(s, sp);
      DropWhileSuffix(s, sp);
      if sp(s[0]) && |t| > 0 && tp(t[0]) {
        assert AllChars(t[1..], q) by {
          forall k | 0 <= k < |t[1..]| ensures q(t[1..][k]) {
            assert t[1..][k] == s[|s| - |t| + 1 + k];
          }
        }
        DeleteRunsKeeps(t[1..], sp, tp, q);
        assert t[0] == s[|s| - |t|];
        var r := DeleteRunsBefore(s, sp, tp);
        assert forall k :: 1 <= k < |r| ==> r[k] == DeleteRunsBefore(t[1..], sp, tp)[k - 1];
      } else {
        assert AllChars(s[1..], q) by {
          forall k | 0 <= k < |s[1..]| ensures q(s[1..][k]) {
            assert s[1..][k] == s[k + 1];
          }
        }
        DeleteRunsKeeps(s[1..], sp, tp, q);
        var r := DeleteRunsBefore(s, sp, tp);
        assert forall k :: 1 <= k < |r| ==> r[k] == DeleteRunsBefore(s[1..], sp, tp)[k - 1];
      }
    }
  }

  /** With no `tp` character there is nothing to delete. */
  lemma {:induction false} DeleteRunsPlain(s: string, sp: char -> bool, tp: char -> bool)
    requires forall c :: !(sp(c) && tp(c))
    requires forall i :: 0 <= i < |s| ==> !tp(s[i])
    ensures DeleteRunsBefore(s, sp, tp) == s
    decreases |s|
  {
    if |s| > 0 {
      var t := DropWhile(s, sp);
      DropWhileSuffix(s, sp);
      if |t| > 0 {
        assert t[0] == s[|s| - |t|];
      }
      DeleteRunsPlain(s[1..], sp, tp);
      assert s == [s[0]] + s[1..];
    }
  }

  /** A space put between two characters is filtered out again. */
  lemma FilterSkipsSpace(a: char, b: char, np: char -> bool)
    requires !np(' ')
    ensures Filter([a, ' ', b], np) == Filter([a, b], np)
  {
    assert [a, b][1..] == [b];
    assert [a, ' ', b][1..] == [' ', b] && [' ', b][1..] == [b];
  }

  /** Inserting spaces changes nothing but the `sp` characters. */
  lemma {:induction false} SpaceAfterSolid(s: string, sp: char -> bool, tp: char -> bool, np: char -> bool)
    requires sp(' ')
    requires forall c :: np(c) == !sp(c)
    ensures Filter(SpaceAfter(s, sp, tp), np) == Filter(s, np)
    decreases |s|
  {
    if |s| > 0 {
      if tp(s[0]) && |s| > 1 && !sp(s[1]) {
        SpaceAfterSolid(s[2..], sp, tp, np);
        assert s == [s[0], s[1]] + s[2..];
        FilterAppend([s[0], s[1]], s[2..], np);
        FilterAppend([s[0], ' ', s[1]], SpaceAfter(s[2..], sp, tp), np);
        FilterSkipsSpace(s[0], s[1], np);
      } else {
        SpaceAfterSolid(s[1..], sp, tp, np);
        assert s == [s[0]] + s[1..];
        FilterAppend([s[0]], s[1..], np);
        FilterAppend([s[0]], SpaceAfter(s[1..], sp, tp), np);
      }
    }
  }

  /** Inserting spaces introduces no character other than the space. */
  lemma {:induction false} SpaceAfterKeeps(s: string, sp: char -> bool, tp: char -> bool, q: char -> bool)
    requires q(' ')
    requires AllChars(s, q)
    ensures AllChars(SpaceAfter(s, sp, tp), q)
    decreases |s|
  {
    if |s| > 0 {
      var r := SpaceAfter(s, sp, tp);
      if tp(s[0]) && |s| > 1 && !sp(s[1]) {
        assert AllChars(s[2..], q) by {
          forall k | 0 <= k < |s[2..]| ensures q(s[2..][k]) {
            assert s[2..][k] == s[k + 2];
          }
        }
        SpaceAfterKeeps(s[2..], sp, tp, q);
        assert forall k :: 3 <= k < |r| ==> r[k] == SpaceAfter(s[2..], sp, tp)[k - 3];
      } else {
        assert AllChars(s[1..], q) by {
          forall k | 0 <= k < |s[1..]| ensures q(s[1..][k]) {
            assert s[1..][k] == s[k + 1];
          }
        }
        SpaceAfterKeeps(s[1..], sp, tp, q);
        assert forall k :: 1 <= k < |r| ==> r[k] == SpaceAfter(s[1..], sp, tp)[k - 1];
      }
    }
  }

  /** When no two `tp` characters are adjacent, every `tp` character that has
      a successor in the output is followed by an `sp` character. */
  lemma {:induction false} SpaceAfterSeparates(s: string, sp: char -> bool, tp: char -> bool)
    requires sp(' ')
    requires forall c :: !(sp(c) && tp(c))
    requires forall k :: 0 <= k < |s| - 1 ==> !(tp(s[k]) && tp(s[k + 1]))
    ensures forall k :: 0 <= k < |SpaceAfter(s, sp, tp)| - 1 && tp(SpaceAfter(s, sp, tp)[k]) ==> sp(SpaceAfter(s, sp, tp)[k + 1])
    decreases |s|
  {
    if |s| > 0 {
      var r := SpaceAfter(s, sp, tp);
      if tp(s[0]) && |s| > 1 && !sp(s[1]) {
        var rest := SpaceAfter(s[2..], sp, tp);
        assert forall k :: 0 <= k < |s[2..]| - 1 ==> !(tp(s[2..][k]) && tp(s[2..][k + 1])) by {
          forall k | 0 <= k < |s[2..]| - 1 ensures !(tp(s[2..][k]) && tp(s[2..][k + 1])) {
            assert s[2..][k] == s[k + 2] && s[2..][k + 1] == s[k + 3];
          }
        }
        SpaceAfterSeparates(s[2..], sp, tp);
        forall k | 0 <= k < |r| - 1 && tp(r[k]) ensures sp(r[k + 1]) {
          if k >= 3 {
            assert r[k] == rest[k - 3] && r[k + 1] == rest[k - 2];
          }
        }
      } else {
        var rest := SpaceAfter(s[1..], sp, tp);
        assert forall k :: 0 <= k < |s[1..]| - 1 ==> !(tp(s[1..][k]) && tp(s[1..][k + 1])) by {
          forall k | 0 <= k < |s[1..]| - 1 ensures !(tp(s[1..][k]) && tp(s[1..][k + 1])) {
            assert s[1..][k] == s[k + 1] && s[1..][k + 1] == s[k + 2];
          }
        }
        SpaceAfterSeparates(s[1..], sp, tp);
        forall k | 0 <= k < |r| - 1 && tp(r[k]) ensures sp(r[k + 1]) {
          if k >= 1 {
            assert r[k] == rest[k - 1] && r[k + 1] == rest[k];
          } else {
            assert r[1] == rest[0];
          }
        }
      }
    }
  }

  /** With no `tp` character there is nothing to space out. */
  lemma {:induction false} SpaceAfterPlain(s: string, sp: char -> bool, tp: char -> bool)
    requires forall i :: 0 <= i < |s| ==> !tp(s[i])
    ensures SpaceAfter(s, sp, tp) == s
    decreases |s|
  {
    if |s| > 0 {
      SpaceAfterPlain(s[1..], sp, tp);
      assert s == [s[0]] + s[1..];
    }
  }

  /** Dropping a leading run stops at a non-`p` character of `x`, so `y` is
      left untouched. */
  lemma {:induction false} DropWhileAppend(x: string, y: string, p: char -> bool)
    requires |x| > 0 && !p(x[|x| - 1])
    ensures |DropWhile(x, p)| > 0
    ensures DropWhile(x + y, p) == DropWhile(x, p) + y
    decreases |x|
  {
    if p(x[0]) {
      DropAppend(x, y, 1);
      DropWhileAppend(x[1..], y, p);
    }
  }

  /** A suffix of `x` ends where `x` ends. */
  lemma SuffixLast(x: string, n: nat, p: char -> bool)
    requires n <= |x| && (|x| == 0 || !p(x[|x| - 1]))
    ensures |x[n..]| == 0 || !p(x[n..][|x[n..]| - 1])
  {
    if |x[n..]| > 0 {
      assert x[n..][|x[n..]| - 1] == x[|x| - 1];
    }
  }

  /** Line 16 works piece by piece: cutting the text after a character that
      is not in the deleted class changes nothing, since no run of that class
      spans the cut. Cut after every such character: each piece is a run of
      the class followed by one other character, or a final run; the piece
      is left alone (`DeleteRunsNone`) unless a non-empty run stands in
      front of a mark, and then only the run goes (`DeleteRunsMark`). */
  lemma {:induction false} DeleteRunsAppend(x: string, y: string, sp: char -> bool, tp: char -> bool)
    requires forall c :: !(sp(c) && tp(c))
    requires |x| == 0 || !sp(x[|x| - 1])
    ensures DeleteRunsBefore(x + y, sp, tp) == DeleteRunsBefore(x, sp, tp) + DeleteRunsBefore(y, sp, tp)
    decreases |x|
  {
    if |x| == 0 {
      assert x + y == y;
    } else {
      var u := DropWhile(x, sp);
      DropWhileAppend(x, y, sp);
      DropWhileSuffix(x, sp);
      var n := |x| - |u| + 1;
      if sp(x[0]) && tp(u[0]) {
        assert u[1..] == x[n..];
        SuffixLast(x, n, sp);
        DeleteRunsAppend(u[1..], y, sp, tp);
        DeleteRunsJumpBoth(x, y, u, sp, tp);
      } else {
        SuffixLast(x, 1, sp);
        DeleteRunsAppend(x[1..], y, sp, tp);
        DeleteRunsKeepBoth(x, y, u, sp, tp);
      }
    }
  }

  /** One step of `DeleteRunsAppend` when a run in front of a mark is
      deleted from both `x` and `x + y`. */
  lemma DeleteRunsJumpBoth(x: string, y: string, u: string, sp: char -> bool, tp: char -> bool)
    requires forall c :: !(sp(c) && tp(c))
    requires |x| > 0 && u == DropWhile(x, sp) && |u| > 0 && DropWhile(x + y, sp) == u + y
    requires sp(x[0]) && tp(u[0])
    requires DeleteRunsBefore(u[1..] + y, sp, tp) == DeleteRunsBefore(u[1..], sp, tp) + DeleteRunsBefore(y, sp, tp)
    ensures DeleteRunsBefore(x + y, sp, tp) == DeleteRunsBefore(x, sp, tp) + DeleteRunsBefore(y, sp, tp)
  {
    DropAppend(u, y, 1);
    DeleteRunsJump(x + y, u + y, sp, tp);
    DeleteRunsJump(x, u, sp, tp);
    AppendAssoc([u[0]], DeleteRunsBefore(u[1..], sp, tp), DeleteRunsBefore(y, sp, tp));
  }

  /** One step of `DeleteRunsAppend` when the first character is kept in
      both `x` and `x + y`. */
  lemma DeleteRunsKeepBoth(x: string, y: string, u: string, sp: char -> bool, tp: char -> bool)
    requires forall c :: !(sp(c) && tp(c))
    requires |x| > 0 && u == DropWhile(x, sp) && |u| > 0 && DropWhile(x + y, sp) == u + y
    requires !(sp(x[0]) && tp(u[0]))
    requires DeleteRunsBefore(x[1..] + y, sp, tp) == DeleteRunsBefore(x[1..], sp, tp) + DeleteRunsBefore(y, sp, tp)
    ensures DeleteRunsBefore(x + y, sp, tp) == DeleteRunsBefore(x, sp, tp) + DeleteRunsBefore(y, sp, tp)
  {
    DropAppend(x, y, 1);
    DeleteRunsKeep(x + y, u + y, sp, tp);
    DeleteRunsKeep(x, u, sp, tp);
    AppendAssoc([x[0]], DeleteRunsBefore(x[1..], sp, tp), DeleteRunsBefore(y, sp, tp));
  }

  /** The step of `DeleteRunsBefore` that deletes a run in front of a mark. */
  lemma DeleteRunsJump(s: string, t: string, sp: char -> bool, tp: char -> bool)
    requires forall c :: !(sp(c) && tp(c))
    requires |s| > 0 && t == DropWhile(s, sp) && sp(s[0]) && |t| > 0 && tp(t[0])
    ensures DeleteRunsBefore(s, sp, tp) == [t[0]] + DeleteRunsBefore(t[1..], sp, tp)
  {
  }

  /** The step of `DeleteRunsBefore` that keeps the first character. */
  lemma DeleteRunsKeep(s: string, t: string, sp: char -> bool, tp: char -> bool)
    requires forall c :: !(sp(c) && tp(c))
    requires |s| > 0 && t == DropWhile(s, sp) && !(sp(s[0]) && |t| > 0 && tp(t[0]))
    ensures DeleteRunsBefore(s, sp, tp) == [s[0]] + DeleteRunsBefore(s[1..], sp, tp)
  {
  }

  /** A non-empty run of the deleted class in front of a mark is deleted. */
  lemma DeleteRunsMark(w: string, c: char, sp: char -> bool, tp: char -> bool)
    requires forall c :: !(sp(c) && tp(c))
    requires |w| > 0 && AllChars(w, sp) && tp(c)
    ensures DeleteRunsBefore(w + [c], sp, tp) == [c]
  {
    DropRun(w, c, sp);
    assert DropWhile(w + [c], sp)[1..] == [];
  }

  /** Dropping a run of `p` characters in front of a non-`p` character. */
  lemma {:induction false} DropRun(w: string, c: char, p: char -> bool)
    requires AllChars(w, p) && !p(c)
    ensures DropWhile(w + [c], p) == [c]
    decreases |w|
  {
    if |w| > 0 {
      assert (w + [c])[1..] == w[1..] + [c];
      assert AllChars(w[1..], p) by {
        forall k | 0 <= k < |w[1..]| ensures p(w[1..][k]) {
          assert w[1..][k] == w[k + 1];
        }
      }
      DropRun(w[1..], c, p);
    }
  }

  /** Line 17 works piece by piece: cutting the text after a character that
      is not a mark changes nothing, since no match spans the cut. Within a
      piece a space goes only between a mark and the character after it
      (`SpaceAfterMark`); text where every mark is already followed by a
      blank is left alone (`SpaceAfterNone`). */
  lemma {:induction false} SpaceAfterAppend(x: string, y: string, sp: char -> bool, tp: char -> bool)
    requires |x| == 0 || !tp(x[|x| - 1])
    ensures SpaceAfter(x + y, sp, tp) == SpaceAfter(x, sp, tp) + SpaceAfter(y, sp, tp)
    decreases |x|
  {
    if |x| == 0 {
      assert x + y == y;
    } else if tp(x[0]) && !sp(x[1]) {
      SuffixLast(x, 2, tp);
      SpaceAfterAppend(x[2..], y, sp, tp);
      SpaceAfterPairBoth(x, y, sp, tp);
    } else {
      SuffixLast(x, 1, tp);
      SpaceAfterAppend(x[1..], y, sp, tp);
      SpaceAfterOneBoth(x, y, sp, tp);
    }
  }

  lemma SpaceAfterPairBoth(x: string, y: string, sp: char -> bool, tp: char -> bool)
    requires |x| > 1 && tp(x[0]) && !sp(x[1])
    requires SpaceAfter(x[2..] + y, sp, tp) == SpaceAfter(x[2..], sp, tp) + SpaceAfter(y, sp, tp)
    ensures SpaceAfter(x + y, sp, tp) == SpaceAfter(x, sp, tp) + SpaceAfter(y, sp, tp)
  {
    DropAppend(x, y, 2);
    SpaceAfterPairStep(x + y, sp, tp);
    SpaceAfterPairStep(x, sp, tp);
    AppendAssoc([x[0], ' ', x[1]], SpaceAfter(x[2..], sp, tp), SpaceAfter(y, sp, tp));
  }

  lemma SpaceAfterPairStep(s: string, sp: char -> bool, tp: char -> bool)
    requires |s| > 1 && tp(s[0]) && !sp(s[1])
    ensures SpaceAfter(s, sp, tp) == [s[0], ' ', s[1]] + SpaceAfter(s[2..], sp, tp)
  {
  }

  lemma SpaceAfterOneStep(s: string, sp: char -> bool, tp: char -> bool)
    requires |s| > 0 && !(tp(s[0]) && |s| > 1 && !sp(s[1]))
    ensures SpaceAfter(s, sp, tp) == [s[0]] + SpaceAfter(s[1..], sp, tp)
  {
  }

  lemma DropAppend(x: string, y: string, n: nat)
    requires n <= |x|
    ensures (x + y)[n..] == x[n..] + y
  {
  }

  lemma AppendAssoc(a: string, b: string, c: string)
    ensures a + (b + c) == (a + b) + c
  {
  }

  lemma SpaceAfterOneBoth(x: string, y: string, sp: char -> bool, tp: char -> bool)
    requires |x| > 0 && (|x| == 1 ==> !tp(x[0])) && !(tp(x[0]) && |x| > 1 && !sp(x[1]))
    requires SpaceAfter(x[1..] + y, sp, tp) == SpaceAfter(x[1..], sp, tp) + SpaceAfter(y, sp, tp)
    ensures SpaceAfter(x + y, sp, tp) == SpaceAfter(x, sp, tp) + SpaceAfter(y, sp, tp)
  {
    DropAppend(x, y, 1);
    assert (x + y)[0] == x[0];
    assert |x| > 1 ==> (x + y)[1] == x[1];
    SpaceAfterOneStep(x + y, sp, tp);
    SpaceAfterOneStep(x, sp, tp);
    AppendAssoc([x[0]], SpaceAfter(x[1..], sp, tp), SpaceAfter(y, sp, tp));
  }

  /** A mark followed by a character outside the blank class gets one space
      between them, and the two are consumed together. */
  lemma SpaceAfterMark(a: char, b: char, y: string, sp: char -> bool, tp: char -> bool)
    requires tp(a) && !sp(b)
    ensures SpaceAfter([a, b] + y, sp, tp) == [a, ' ', b] + SpaceAfter(y, sp, tp)
  {
    assert ([a, b] + y)[2..] == y;
  }

  /** With no `sp` character directly in front of a `tp` character there is
      nothing to delete. */
  lemma {:induction false} DeleteRunsNone(s: string, sp: char -> bool, tp: char -> bool)
    requires forall c :: !(sp(c) && tp(c))
    requires forall k :: 0 <= k < |s| - 1 ==> !(sp(s[k]) && tp(s[k + 1]))
    ensures DeleteRunsBefore(s, sp, tp) == s
    decreases |s|
  {
    if |s| > 0 {
      var t := DropWhile(s, sp);
      DropWhileSuffix(s, sp);
      if sp(s[0]) && |t| > 0 {
        var n := |s| - |t|;
        assert t[0] == s[n] && sp(s[n - 1]);
      }
      DeleteRunsKeep(s, t, sp, tp);
      assert forall k :: 0 <= k < |s[1..]| - 1 ==> !(sp(s[1..][k]) && tp(s[1..][k + 1])) by {
        forall k | 0 <= k < |s[1..]| - 1 ensures !(sp(s[1..][k]) && tp(s[1..][k + 1])) {
          assert s[1..][k] == s[k + 1] && s[1..][k + 1] == s[k + 2];
        }
      }
      DeleteRunsNone(s[1..], sp, tp);
      assert s == [s[0]] + s[1..];
    }
  }

  /** When every `tp` character with a successor is followed by an `sp`
      character there is nothing to space out. */
  lemma {:induction false} SpaceAfterNone(s: string, sp: char -> bool, tp: char -> bool)
    requires forall k :: 0 <= k < |s| - 1 && tp(s[k]) ==> sp(s[k + 1])
    ensures SpaceAfter(s, sp, tp) == s
    decreases |s|
  {
    if |s| > 0 {
      SpaceAfterOneStep(s, sp, tp);
      assert forall k :: 0 <= k < |s[1..]| - 1 && tp(s[1..][k]) ==> sp(s[1..][k + 1]) by {
        forall k | 0 <= k < |s[1..]| - 1 && tp(s[1..][k]) ensures sp(s[1..][k + 1]) {
          assert s[1..][k] == s[k + 1] && s[1..][k + 1] == s[k + 2];
        }
      }
      SpaceAfterNone(s[1..], sp, tp);
      assert s == [s[0]] + s[1..];
    }
  }

  // ---------------------------------------------------------------------
  // The cleaning pipeline
  // ---------------------------------------------------------------------

  /** `re.sub(r'[•●]', '-', s)`. */
  function ReplaceBullets(s: string): (r: string)
    ensures |r| == |s|
    ensures forall i :: 0 <= i < |s| ==> r[i] == (if IsBullet(s[i]) then '-' else s[i])
  {
    seq(|s|, i requires 0 <= i < |s| => if IsBullet(s[i]) then '-' else s[i])
  }

  /** The bullet substitution runs after the printable-ASCII filter, which has
      already removed both bullet characters: it never changes anything. */
  lemma BulletsAlreadyGone(s: string)
    requires AllChars(s, IsPrintable)
    ensures ReplaceBullets(s) == s
  {
  }

  lemma SpaceTightDisjoint()
    ensures forall c :: !(IsSpace(c) && IsTight(c))
  {
  }

  /** `re.sub(r'\s+([.,:;!?()])', r'\1', s)`: no whitespace is left directly
      in front of a tight punctuation mark. */
  function Tighten(s: string): (r: string)
    ensures NoSpaceBeforeTight(r)
  {
    SpaceTightDisjoint();
    DeleteRunsBefore(s, IsSpace, IsTight)
  }

  /** `re.sub(r'([.,:;!?()])([^\s])', r'\1 \2', s)`. */
  function Spacing(s: string): string {
    SpaceAfter(s, IsSpace, IsTight)
  }

  /** Lines 5 to 13 of the source: the whitespace collapse and the three
      character filters (the bullet substitution in between changes nothing). */
  function Filtered(text: string): string {
    Filter(ReplaceBullets(Filter(Filter(CollapseSpaces(text), IsAscii), IsPrintable)), IsKept)
  }

  /** After the filters only word characters, spaces and keep-list
      punctuation remain. */
  lemma FilteredChars(text: string)
    ensures AllChars(Filtered(text), IsCleanChar)
  {
    var s2 := Filter(CollapseSpaces(text), IsAscii);
    var s3 := Filter(s2, IsPrintable);
    FilterSatisfies(s2, IsPrintable);
    BulletsAlreadyGone(s3);
    FilterSatisfies(s3, IsKept);
    FilterSubset(s3, IsKept);
  }

  /** Lines 16 and 17 of the source. */
  function Spaced(text: string): string {
    Spacing(Tighten(Filtered(text)))
  }

  lemma SpacedChars(text: string)
    ensures AllChars(Spaced(text), IsCleanChar)
  {
    FilteredChars(text);
    SpaceTightDisjoint();
    DeleteRunsKeeps(Filtered(text), IsSpace, IsTight, IsCleanChar);
    SpaceAfterKeeps(Tighten(Filtered(text)), IsSpace, IsTight, IsCleanChar);
  }

  /** `clean_text`: the pipeline followed by `strip`. The result has no
      whitespace at either end and holds only word characters, spaces and
      keep-list punctuation. */
  function CleanText(text: string): (r: string)
    ensures Trimmed(r)
    ensures AllChars(r, IsCleanChar)
  {
    SpacedChars(text);
    StripKeeps(Spaced(text), IsCleanChar);
    Strip(Spaced(text))
  }

  /** Collapsing whitespace runs leaves the other characters alone. */
  lemma {:induction false} CollapseSolid(s: string)
    ensures Solid(CollapseSpaces(s)) == Solid(s)
    decreases |s|
  {
    if |s| > 0 {
      if IsSpace(s[0]) {
        var b := RunEnd(s, 0, IsSpace);
        CollapseSolid(s[b..]);
        assert s == s[..b] + s[b..];
        FilterAppend(s[..b], s[b..], NotSpace);
        FilterNone(s[..b], NotSpace);
        FilterAppend(" ", CollapseSpaces(s[b..]), NotSpace);
      } else {
        CollapseSolid(s[1..]);
        assert s == [s[0]] + s[1..];
        FilterAppend([s[0]], s[1..], NotSpace);
        FilterAppend([s[0]], CollapseSpaces(s[1..]), NotSpace);
      }
    }
  }

  /** `strip` removes only whitespace. */
  lemma StripSolid(s: string)
    ensures Solid(Strip(s)) == Solid(s)
  {
    FilterMiddle(s, StripBegin(s), StripEnd(s), NotSpace);
  }

  /** The non-whitespace characters of the cleaned text are exactly the
      input's printable ASCII word characters and keep-list punctuation, in
      their original order: cleaning deletes the other characters and only
      moves, merges or inserts whitespace. */
  lemma CleanTextSolid(text: string)
    ensures Solid(CleanText(text)) == Filter(text, IsSolidKept)
  {
    FilteredSolid(text);
    var s6 := Tighten(Filtered(text));
    StripSolid(Spacing(s6));
    SpaceAfterSolid(s6, IsSpace, IsTight, NotSpace);
    SpaceTightDisjoint();
    DeleteRunsSolid(Filtered(text), IsSpace, IsTight, NotSpace);
  }

  lemma FilteredSolid(text: string)
    ensures Solid(Filtered(text)) == Filter(text, IsSolidKept)
  {
    var s1 := CollapseSpaces(text);
    FilterStepsSolid(s1);
    CollapseSolid(text);
    SolidThenKept(s1);
    SolidThenKept(text);
  }

  /** The three filters and the non-whitespace filter together keep exactly
      the characters `IsSolidKept` accepts. */
  lemma FilterStepsSolid(s1: string)
    ensures Solid(Filter(ReplaceBullets(Filter(Filter(s1, IsAscii), IsPrintable)), IsKept)) == Filter(s1, IsSolidKept)
  {
    var s2 := Filter(s1, IsAscii);
    var s3 := Filter(s2, IsPrintable);
    FilterSatisfies(s2, IsPrintable);
    BulletsAlreadyGone(s3);
    FilterFilter(s1, IsAscii, IsPrintable, IsAsciiPrintable);
    FilterFilter(s1, IsAsciiPrintable, IsKept, IsAsciiPrintableKept);
    SolidKeptSplit();
    FilterFilter(s1, IsAsciiPrintableKept, NotSpace, IsSolidKept);
  }

  predicate IsAsciiPrintable(c: char) { IsAscii(c) && IsPrintable(c) }
  predicate IsAsciiPrintableKept(c: char) { IsAsciiPrintable(c) && IsKept(c) }

  lemma SolidKeptSplit()
    ensures forall c :: IsSolidKept(c) == (IsAsciiPrintableKept(c) && NotSpace(c))
  {
  }

  /** `IsSolidKept` excludes whitespace, so dropping whitespace first changes
      nothing. */
  lemma SolidThenKept(s: string)
    ensures Filter(Solid(s), IsSolidKept) == Filter(s, IsSolidKept)
  {
    FilterFilter(s, NotSpace, IsSolidKept, IsSolidKept);
  }

  /** Text made of word characters separated by single spaces, with nothing
      at either end, comes back unchanged. */
  lemma CleanPlainWords(text: string)
    requires Trimmed(text)
    requires AllChars(text, IsPlainChar)
    requires forall i :: 0 <= i < |text| - 1 ==> !(text[i] == ' ' && text[i + 1] == ' ')
    ensures CleanText(text) == text
  {
    FilteredPlain(text);
    PlainCharFacts();
    SpaceTightDisjoint();
    DeleteRunsPlain(text, IsSpace, IsTight);
    SpaceAfterPlain(text, IsSpace, IsTight);
    StripTrimmed(text);
  }

  /** Text that is already clean comes back unchanged: trimmed, made of
      word characters, single spaces and keep-list punctuation, with no
      space in front of a mark and a space after every mark that is not
      last. So line 16 deletes only whitespace that stands in front of a
      mark, and line 17 inserts a space only right after a mark. */
  lemma CleanTextFixed(text: string)
    requires Trimmed(text)
    requires AllChars(text, IsCleanChar)
    requires forall i :: 0 <= i < |text| - 1 ==> !(text[i] == ' ' && text[i + 1] == ' ')
    requires forall i :: 0 <= i < |text| - 1 ==> !(text[i] == ' ' && IsTight(text[i + 1]))
    requires forall i :: 0 <= i < |text| - 1 && IsTight(text[i]) ==> text[i + 1] == ' '
    ensures CleanText(text) == text
  {
    FilteredClean(text);
    CleanCharFacts();
    SpaceTightDisjoint();
    DeleteRunsNone(text, IsSpace, IsTight);
    SpaceAfterNone(text, IsSpace, IsTight);
    StripTrimmed(text);
  }

  lemma CleanCharFacts()
    ensures forall c :: IsCleanChar(c) ==> IsAscii(c) && IsPrintable(c) && IsKept(c)
    ensures forall c :: IsCleanChar(c) ==> (IsSpace(c) <==> c == ' ')
  {
  }

  lemma FilteredClean(text: string)
    requires AllChars(text, IsCleanChar)
    requires forall i :: 0 <= i < |text| - 1 ==> !(text[i] == ' ' && text[i + 1] == ' ')
    ensures Filtered(text) == text
  {
    CleanCharFacts();
    assert SingleSpaced(text);
    CollapseSingleSpaces(text);
    FilterAll(text, IsAscii);
    FilterAll(text, IsPrintable);
    BulletsAlreadyGone(text);
    FilterAll(text, IsKept);
  }

  /** A word character or the space. */
  predicate IsPlainChar(c: char) { IsWordChar(c) || c == ' ' }

  lemma PlainCharFacts()
    ensures forall c :: IsPlainChar(c) ==> IsAscii(c) && IsPrintable(c) && IsKept(c) && !IsTight(c)
    ensures forall c :: IsPlainChar(c) ==> (IsSpace(c) <==> c == ' ')
  {
  }

  lemma FilteredPlain(text: string)
    requires AllChars(text, IsPlainChar)
    requires forall i :: 0 <= i < |text| - 1 ==> !(text[i] == ' ' && text[i + 1] == ' ')
    ensures Filtered(text) == text
  {
    PlainCharFacts();
    assert SingleSpaced(text);
    CollapseSingleSpaces(text);
    FilterAll(text, IsAscii);
    FilterAll(text, IsPrintable);
    BulletsAlreadyGone(text);
    FilterAll(text, IsKept);
  }

  /** The character after a mark is consumed by the match, so a second mark
      right after the first does not get its own space. */
  lemma SpacingSkipsSecondMark()
    ensures Spacing(".,x") == ". ,x"
  {
  }
}
