/** Python's `list.sort(key=..., reverse=True)` on a real-valued key: a
    stable sort into non-increasing key order. Stability is stated without
    positions: for every key value, the elements carrying that value appear
    in the output in exactly their input order. */
module StableSort {

  predicate NonIncreasing<T>(xs: seq<T>, key: T -> real) {
    forall i, j :: 0 <= i < j < |xs| ==> key(xs[i]) >= key(xs[j])
  }

  /** The elements whose key is `v`, in order. */
  function WithKey<T>(xs: seq<T>, key: T -> real, v: real): seq<T> {
    if |xs| == 0 then []
    else (if key(xs[0]) == v then [xs[0]] else []) + WithKey(xs[1..], key, v)
  }

  lemma {:induction false} WithKeyAppend<T>(xs: seq<T>, x: T, key: T -> real, v: real)
    ensures WithKey(xs + [x], key, v) == WithKey(xs, key, v) + (if key(x) == v then [x] else [])
  {
    if |xs| > 0 {
      assert (xs + [x])[1..] == xs[1..] + [x];
      WithKeyAppend(xs[1..], x, key, v);
    } else {
      assert [x][1..] == [];
    }
  }

  lemma {:induction false} WithKeyNone<T>(xs: seq<T>, key: T -> real, v: real)
    requires forall i :: 0 <= i < |xs| ==> key(xs[i]) < v
    ensures WithKey(xs, key, v) == []
  {
    if |xs| > 0 {
      WithKeyNone(xs[1..], key, v);
    }
  }

  /** Puts `x` after every element whose key is at least its own. */
  function Insert<T>(s: seq<T>, x: T, key: T -> real): (r: seq<T>)
    requires NonIncreasing(s, key)
    ensures NonIncreasing(r, key)
    ensures |r| == |s| + 1
    ensures forall i :: 0 <= i < |r| ==> r[i] == x || r[i] in s
  {
    if |s| == 0 then [x]
    else if key(s[0]) < key(x) then [x] + s
    else
      var rest := Insert(s[1..], x, key);
      var r := [s[0]] + rest;
      assert forall i :: 1 <= i < |r| ==> key(r[i]) <= key(s[0]) by {
        forall i | 1 <= i < |r| ensures key(r[i]) <= key(s[0]) {
          assert r[i] == rest[i - 1];
          if r[i] != x {
            var k :| 0 <= k < |s[1..]| && s[1..][k] == r[i];
            assert s[k + 1] == r[i];
          }
        }
      }
      assert forall i :: 1 <= i < |r| ==> r[i] == x || r[i] in s by {
        forall i | 1 <= i < |r| ensures r[i] == x || r[i] in s {
          assert r[i] == rest[i - 1];
          if r[i] != x {
            var k :| 0 <= k < |s[1..]| && s[1..][k] == r[i];
            assert s[k + 1] == r[i];
          }
        }
      }
      r
  }

  lemma {:induction false} InsertPermutes<T>(s: seq<T>, x: T, key: T -> real)
    requires NonIncreasing(s, key)
    ensures multiset(Insert(s, x, key)) == multiset(s) + multiset{x}
  {
    if |s| > 0 && key(s[0]) >= key(x) {
      InsertPermutes(s[1..], x, key);
      assert s == [s[0]] + s[1..];
    }
  }

  lemma {:induction false} InsertWithKey<T>(s: seq<T>, x: T, key: T -> real, v: real)
    requires NonIncreasing(s, key)
    ensures WithKey(Insert(s, x, key), key, v) == WithKey(s, key, v) + (if key(x) == v then [x] else [])
  {
    if |s| == 0 {
      assert WithKey([x], key, v) == (if key(x) == v then [x] else []) + WithKey([x][1..], key, v);
      assert [x][1..] == [];
    } else if key(s[0]) < key(x) {
      if key(x) == v {
        WithKeyNone(s, key, v);
      }
      assert ([x] + s)[1..] == s;
    } else {
      InsertWithKey(s[1..], x, key, v);
      var r := Insert(s, x, key);
      assert r == [s[0]] + Insert(s[1..], x, key);
      assert r[1..] == Insert(s[1..], x, key);
    }
  }

  /** Stable sort into non-increasing key order (insertion sort). */
  function SortDesc<T>(xs: seq<T>, key: T -> real): (r: seq<T>)
    ensures NonIncreasing(r, key)
    ensures multiset(r) == multiset(xs)
    ensures |r| == |xs|
    ensures forall v :: WithKey(r, key, v) == WithKey(xs, key, v)
  {
    if |xs| == 0 then []
    else
      var init, x := xs[..|xs| - 1], xs[|xs| - 1];
      assert xs == init + [x];
      var sorted := SortDesc(init, key);
      var r := Insert(sorted, x, key);
      InsertPermutes(sorted, x, key);
      forall v ensures WithKey(r, key, v) == WithKey(xs, key, v) {
        WithKeyAppend(init, x, key, v);
        InsertWithKey(sorted, x, key, v);
      }
      r
  }
}

/** Rank numbering after a descending sort: what both ranking routines do
    with their score lists (`for i, x in enumerate(sorted): x["rank"] = i + 1`). */
module Ranking {
  import opened StableSort

  datatype Ranked<T> = Ranked(entry: T, rank: nat)

  function Entries<T>(rs: seq<Ranked<T>>): (r: seq<T>)
    ensures |r| == |rs|
    ensures forall i :: 0 <= i < |rs| ==> r[i] == rs[i].entry
  {
    seq(|rs|, i requires 0 <= i < |rs| => rs[i].entry)
  }

  /** Sorts stably by descending key and numbers the result 1..N. */
  function RankByKey<T>(xs: seq<T>, key: T -> real): (r: seq<Ranked<T>>)
    ensures |r| == |xs|
    ensures forall i :: 0 <= i < |r| ==> r[i].rank == i + 1
    ensures NonIncreasing(Entries(r), key)
    ensures multiset(Entries(r)) == multiset(xs)
    ensures forall v :: WithKey(Entries(r), key, v) == WithKey(xs, key, v)
  {
    var sorted := SortDesc(xs, key);
    var r := seq(|sorted|, i requires 0 <= i < |sorted| => Ranked(sorted[i], i + 1));
    assert Entries(r) == sorted;
    r
  }

  /** Ranking keeps every property all the entries share. */
  lemma RankKeeps<T>(xs: seq<T>, key: T -> real, p: T -> bool)
    requires forall i :: 0 <= i < |xs| ==> p(xs[i])
    ensures forall i :: 0 <= i < |RankByKey(xs, key)| ==> p(RankByKey(xs, key)[i].entry)
  {
    var r := RankByKey(xs, key);
    forall i | 0 <= i < |r| ensures p(r[i].entry) {
      assert Entries(r)[i] in multiset(xs);
      var m :| 0 <= m < |xs| && xs[m] == Entries(r)[i];
    }
  }
}
