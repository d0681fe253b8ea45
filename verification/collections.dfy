/** Sequence helpers used by the list-building code: Python's `set(xs)`,
    duplicate-freedom, list comprehensions with a filter, and the
    first-occurrence deduplication that `Counter(xs).keys()` performs. */
module Collections {
  import opened Wrappers

  /** Python's `set(xs)`. */
  function ToSet<T>(xs: seq<T>): set<T> {
    set x | x in xs
  }

  predicate Distinct<T(==)>(xs: seq<T>) {
    forall i, j :: 0 <= i < j < |xs| ==> xs[i] != xs[j]
  }

  lemma ToSetAppend<T>(xs: seq<T>, x: T)
    ensures ToSet(xs + [x]) == ToSet(xs) + {x}
  {
  }

  /** A list has as many distinct elements as entries exactly when it has no
      duplicates. */
  lemma {:induction false} CardToSet<T>(xs: seq<T>)
    ensures |ToSet(xs)| <= |xs|
    ensures |ToSet(xs)| == |xs| <==> Distinct(xs)
  {
    if |xs| > 0 {
      var init, x := xs[..|xs| - 1], xs[|xs| - 1];
      assert xs == init + [x];
      CardToSet(init);
      ToSetAppend(init, x);
      if x in ToSet(init) {
        assert ToSet(xs) == ToSet(init);
        var k :| 0 <= k < |init| && init[k] == x;
        assert xs[k] == xs[|xs| - 1];
        assert !Distinct(xs);
      } else {
        assert |ToSet(xs)| == |ToSet(init)| + 1;
        if Distinct(init) {
          forall i, j | 0 <= i < j < |xs| ensures xs[i] != xs[j] {
            if j == |xs| - 1 {
              assert xs[i] == init[i];
              assert init[i] in ToSet(init);
            } else {
              assert xs[i] == init[i] && xs[j] == init[j];
            }
          }
        } else {
          var i, j :| 0 <= i < j < |init| && init[i] == init[j];
          assert xs[i] == xs[j];
        }
      }
    }
  }

  /** The index of the first occurrence of `x`. */
  function FirstIndex<T(==)>(xs: seq<T>, x: T): (i: nat)
    requires x in xs
    ensures i < |xs| && xs[i] == x
    ensures forall k :: 0 <= k < i ==> xs[k] != x
  {
    if xs[0] == x then 0 else 1 + FirstIndex(xs[1..], x)
  }

  lemma FirstIndexPrefix<T>(xs: seq<T>, x: T, y: T)
    requires y in xs
    ensures y in xs + [x] && FirstIndex(xs + [x], y) == FirstIndex(xs, y)
  {
    var i := FirstIndex(xs, y);
    var j := FirstIndex(xs + [x], y);
    assert (xs + [x])[i] == y;
    assert j <= i;
    assert xs[j] == y;
  }

  /** `list(Counter(xs).keys())`: each element once, at the position of its
      first occurrence. */
  function Dedup<T(==)>(xs: seq<T>): (r: seq<T>)
    ensures Distinct(r)
    ensures ToSet(r) == ToSet(xs)
    ensures forall i :: 0 <= i < |r| ==> r[i] in xs
    ensures forall i, j :: 0 <= i < j < |r| ==> FirstIndex(xs, r[i]) < FirstIndex(xs, r[j])
  {
    if |xs| == 0 then []
    else
      var init, x := xs[..|xs| - 1], xs[|xs| - 1];
      var d := Dedup(init);
      assert xs == init + [x];
      ToSetAppend(init, x);
      ToSetAppend(d, x);
      forall y | y in d ensures FirstIndex(xs, y) == FirstIndex(init, y) {
        FirstIndexPrefix(init, x, y);
      }
      if x in d then d
      else
        assert x !in init;
        assert FirstIndex(xs, x) == |init|;
        var r := d + [x];
        assert forall i :: 0 <= i < |d| ==> r[i] == d[i] && r[i] in d;
        r
  }

  lemma DedupKeeps<T>(xs: seq<T>, x: T)
    ensures x in Dedup(xs) <==> x in xs
  {
    assert x in ToSet(xs) <==> x in xs;
    assert x in ToSet(Dedup(xs)) <==> x in Dedup(xs);
  }

  /** The index of the first element of `xs[from..]` that satisfies `p`:
      the first alternative of a list that is tried and succeeds. */
  function FirstWhere<T>(xs: seq<T>, p: T -> bool, from: nat): (r: Option<nat>)
    requires from <= |xs|
    ensures r.Some? ==> from <= r.value < |xs| && p(xs[r.value])
    ensures r.Some? ==> forall j :: from <= j < r.value ==> !p(xs[j])
    ensures r.None? ==> forall j :: from <= j < |xs| ==> !p(xs[j])
    decreases |xs| - from
  {
    if from == |xs| then None
    else if p(xs[from]) then Some(from)
    else FirstWhere(xs, p, from + 1)
  }

  /** `[x for x in xs if p(x)]`. */
  function Filter<T>(xs: seq<T>, p: T -> bool): (r: seq<T>)
    ensures |r| <= |xs|
  {
    if |xs| == 0 then [] else (if p(xs[0]) then [xs[0]] else []) + Filter(xs[1..], p)
  }

  /** Exactly the elements that satisfy `p` survive the filter. */
  lemma {:induction false} FilterMember<T>(xs: seq<T>, p: T -> bool, x: T)
    ensures x in Filter(xs, p) <==> x in xs && p(x)
  {
    if |xs| > 0 {
      FilterMember(xs[1..], p, x);
      assert xs == [xs[0]] + xs[1..];
    }
  }

  /** Every survivor keeps all its copies. */
  lemma {:induction false} FilterCount<T>(xs: seq<T>, p: T -> bool, x: T)
    ensures multiset(Filter(xs, p))[x] == if p(x) then multiset(xs)[x] else 0
  {
    if |xs| > 0 {
      FilterCount(xs[1..], p, x);
      assert xs == [xs[0]] + xs[1..];
    }
  }

  lemma {:induction false} FilterSatisfies<T>(xs: seq<T>, p: T -> bool)
    ensures forall i :: 0 <= i < |Filter(xs, p)| ==> p(Filter(xs, p)[i])
  {
    if |xs| > 0 {
      FilterSatisfies(xs[1..], p);
      var head := if p(xs[0]) then [xs[0]] else [];
      assert Filter(xs, p) == head + Filter(xs[1..], p);
      forall i | 0 <= i < |Filter(xs, p)| ensures p(Filter(xs, p)[i]) {
        if i >= |head| {
          assert Filter(xs, p)[i] == Filter(xs[1..], p)[i - |head|];
        }
      }
    }
  }

  lemma {:induction false} FilterSubset<T>(xs: seq<T>, p: T -> bool)
    ensures forall i :: 0 <= i < |Filter(xs, p)| ==> Filter(xs, p)[i] in xs
  {
    forall i | 0 <= i < |Filter(xs, p)| ensures Filter(xs, p)[i] in xs {
      FilterMember(xs, p, Filter(xs, p)[i]);
    }
  }

  lemma {:induction false} FilterAppend<T>(xs: seq<T>, ys: seq<T>, p: T -> bool)
    ensures Filter(xs + ys, p) == Filter(xs, p) + Filter(ys, p)
  {
    if |xs| > 0 {
      assert (xs + ys)[1..] == xs[1..] + ys;
      FilterAppend(xs[1..], ys, p);
    } else {
      assert xs + ys == ys;
    }
  }

  /** Cutting off ends that hold nothing the filter keeps changes nothing. */
  lemma FilterMiddle<T>(xs: seq<T>, b: nat, e: nat, p: T -> bool)
    requires b <= e <= |xs|
    requires forall k :: 0 <= k < b ==> !p(xs[k])
    requires forall k :: e <= k < |xs| ==> !p(xs[k])
    ensures Filter(xs[b..e], p) == Filter(xs, p)
  {
    var ys := xs[b..];
    FilterDropFront(xs, b, p);
    forall k | e - b <= k < |ys| ensures !p(ys[k]) {
      assert ys[k] == xs[b + k];
    }
    FilterDropBack(ys, e - b, p);
    assert ys[..e - b] == xs[b..e];
  }

  lemma FilterDropFront<T>(xs: seq<T>, b: nat, p: T -> bool)
    requires b <= |xs|
    requires forall k :: 0 <= k < b ==> !p(xs[k])
    ensures Filter(xs[b..], p) == Filter(xs, p)
  {
    assert xs == xs[..b] + xs[b..];
    FilterAppend(xs[..b], xs[b..], p);
    FilterNone(xs[..b], p);
  }

  lemma FilterDropBack<T>(xs: seq<T>, e: nat, p: T -> bool)
    requires e <= |xs|
    requires forall k :: e <= k < |xs| ==> !p(xs[k])
    ensures Filter(xs[..e], p) == Filter(xs, p)
  {
    assert xs == xs[..e] + xs[e..];
    FilterAppend(xs[..e], xs[e..], p);
    forall k | 0 <= k < |xs[e..]| ensures !p(xs[e..][k]) {
      assert xs[e..][k] == xs[e + k];
    }
    FilterNone(xs[e..], p);
  }

  lemma {:induction false} FilterNone<T>(xs: seq<T>, p: T -> bool)
    requires forall i :: 0 <= i < |xs| ==> !p(xs[i])
    ensures Filter(xs, p) == []
  {
    if |xs| > 0 {
      FilterNone(xs[1..], p);
    }
  }

  /** Everything passes: the filter is the identity. */
  lemma {:induction false} FilterAll<T>(xs: seq<T>, p: T -> bool)
    requires forall i :: 0 <= i < |xs| ==> p(xs[i])
    ensures Filter(xs, p) == xs
  {
    if |xs| > 0 {
      FilterAll(xs[1..], p);
      assert xs == [xs[0]] + xs[1..];
    }
  }

  /** Filtering twice is filtering once by the conjunction. */
  lemma {:induction false} FilterFilter<T(!new)>(xs: seq<T>, p: T -> bool, q: T -> bool, pq: T -> bool)
    requires forall x :: pq(x) == (p(x) && q(x))
    ensures Filter(Filter(xs, p), q) == Filter(xs, pq)
  {
    if |xs| > 0 {
      FilterFilter(xs[1..], p, q, pq);
      var head := if p(xs[0]) then [xs[0]] else [];
      FilterAppend(head, Filter(xs[1..], p), q);
    }
  }

  /** Filters by predicates that agree everywhere are equal. */
  lemma {:induction false} FilterExt<T(!new)>(xs: seq<T>, p: T -> bool, q: T -> bool)
    requires forall x :: p(x) == q(x)
    ensures Filter(xs, p) == Filter(xs, q)
  {
    if |xs| > 0 {
      FilterExt(xs[1..], p, q);
    }
  }

  /** `[f(x) for x in xs]`. */
  function Map<T, U>(xs: seq<T>, f: T -> U): (r: seq<U>)
    ensures |r| == |xs| && forall k :: 0 <= k < |xs| ==> r[k] == f(xs[k])
  {
    seq(|xs|, k requires 0 <= k < |xs| => f(xs[k]))
  }

  /** The images of the elements, and nothing else. */
  lemma MapMember<T, U>(xs: seq<T>, f: T -> U, y: U)
    ensures y in Map(xs, f) <==> exists x :: x in xs && f(x) == y
  {
    if y in Map(xs, f) {
      var k :| 0 <= k < |xs| && Map(xs, f)[k] == y;
      assert xs[k] in xs;
    }
    if exists x :: x in xs && f(x) == y {
      var x :| x in xs && f(x) == y;
      var k :| 0 <= k < |xs| && xs[k] == x;
      assert Map(xs, f)[k] == y;
    }
  }

  /** `[f(x) for x in xs if p(x)]`: the images of the elements that satisfy `p`. */
  lemma MapFilterMember<T, U>(xs: seq<T>, p: T -> bool, f: T -> U, y: U)
    ensures y in Map(Filter(xs, p), f) <==> exists x :: x in xs && p(x) && f(x) == y
  {
    MapMember(Filter(xs, p), f, y);
    if exists x :: x in Filter(xs, p) && f(x) == y {
      var x :| x in Filter(xs, p) && f(x) == y;
      FilterMember(xs, p, x);
    }
    if exists x :: x in xs && p(x) && f(x) == y {
      var x :| x in xs && p(x) && f(x) == y;
      FilterMember(xs, p, x);
    }
  }

  /** Concatenation of a list of lists. */
  function Flatten<T>(xss: seq<seq<T>>): seq<T> {
    if |xss| == 0 then [] else xss[0] + Flatten(xss[1..])
  }

  lemma FlattenAppend<T>(xss: seq<seq<T>>, ys: seq<T>)
    ensures Flatten(xss + [ys]) == Flatten(xss) + ys
  {
    if |xss| > 0 {
      assert (xss + [ys])[1..] == xss[1..] + [ys];
    }
  }

  /** Every element of the flattened list comes from one of the lists, and
      every element of one of the lists is in the flattened list. */
  lemma {:induction false} FlattenMember<T>(xss: seq<seq<T>>, x: T)
    ensures x in Flatten(xss) <==> exists k :: 0 <= k < |xss| && x in xss[k]
  {
    if |xss| > 0 {
      FlattenMember(xss[1..], x);
      if exists k :: 0 <= k < |xss| && x in xss[k] {
        var k :| 0 <= k < |xss| && x in xss[k];
        if k > 0 {
          assert xss[1..][k - 1] == xss[k];
        }
      }
      if x in Flatten(xss[1..]) {
        var k :| 0 <= k < |xss| - 1 && x in xss[1..][k];
        assert xss[k + 1] == xss[1..][k];
      }
    }
  }

  lemma MulStep(j: nat, n: nat)
    requires j > 0
    ensures j * n == n + (j - 1) * n
  {
  }

  /** Flattening blocks of one common length `n` gives `|xss| * n` entries. */
  lemma {:induction false} FlattenBlocksLength<T>(xss: seq<seq<T>>, n: nat)
    requires forall j :: 0 <= j < |xss| ==> |xss[j]| == n
    ensures |Flatten(xss)| == |xss| * n
  {
    if |xss| > 0 {
      FlattenBlocksLength(xss[1..], n);
      MulStep(|xss|, n);
    }
  }

  /** The index of entry `k` of block `j` when every block has `n` entries. */
  function BlockIndex(j: nat, n: nat, k: nat): nat {
    j * n + k
  }

  /** Entry `k` of block `j` sits at index `j * n + k` of the flattened list. */
  lemma {:induction false} FlattenBlockAt<T>(xss: seq<seq<T>>, n: nat, j: nat, k: nat)
    requires forall i :: 0 <= i < |xss| ==> |xss[i]| == n
    requires j < |xss| && k < n
    ensures BlockIndex(j, n, k) < |Flatten(xss)| && Flatten(xss)[BlockIndex(j, n, k)] == xss[j][k]
  {
    FlattenBlocksLength(xss, n);
    if j > 0 {
      FlattenBlockAt(xss[1..], n, j - 1, k);
      MulStep(j, n);
      assert xss[1..][j - 1] == xss[j];
    }
  }

  /** The indices, at or after `from` and in increasing order, of exactly
      the entries that satisfy `p`. */
  function KeptIndices<T>(xs: seq<T>, p: T -> bool, from: nat): (r: seq<nat>)
    requires from <= |xs|
    ensures forall k :: 0 <= k < |r| ==> from <= r[k] < |xs| && p(xs[r[k]])
    ensures forall k, l :: 0 <= k < l < |r| ==> r[k] < r[l]
    ensures forall j :: from <= j < |xs| && p(xs[j]) ==> j in r
    decreases |xs| - from
  {
    if from == |xs| then []
    else (if p(xs[from]) then [from] else []) + KeptIndices(xs, p, from + 1)
  }

  /** The filter keeps the entries at those indices, in their order: the
      result is a subsequence of the input. */
  lemma {:induction false} FilterKept<T>(xs: seq<T>, p: T -> bool, from: nat)
    requires from <= |xs|
    ensures var idx := KeptIndices(xs, p, from);
      |Filter(xs[from..], p)| == |idx| && forall k :: 0 <= k < |idx| ==> Filter(xs[from..], p)[k] == xs[idx[k]]
    decreases |xs| - from
  {
    if from < |xs| {
      FilterKept(xs, p, from + 1);
      assert xs[from..][1..] == xs[from + 1..];
    }
  }

  lemma {:induction false} FlattenConcat<T>(xss: seq<seq<T>>, yss: seq<seq<T>>)
    ensures Flatten(xss + yss) == Flatten(xss) + Flatten(yss)
  {
    if |xss| > 0 {
      assert (xss + yss)[1..] == xss[1..] + yss;
      FlattenConcat(xss[1..], yss);
    } else {
      assert xss + yss == yss;
    }
  }

  /** Entry `j` of list `i` sits after everything the earlier lists hold. */
  lemma FlattenAt<T>(xss: seq<seq<T>>, i: nat, j: nat)
    requires i < |xss| && j < |xss[i]|
    ensures |Flatten(xss[..i])| + j < |Flatten(xss)| && Flatten(xss)[|Flatten(xss[..i])| + j] == xss[i][j]
  {
    assert xss == xss[..i] + xss[i..];
    FlattenConcat(xss[..i], xss[i..]);
    assert xss[i..][0] == xss[i];
  }
}
