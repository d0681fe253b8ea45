/** What both scoring routines share: the range of the library cosine, the
    lowering of skill lists, and counting facts about list overlaps. */
module Overlap {
  import opened Text
  import opened Collections

  /** The cosine similarity of two non-negative count vectors, as the
      vectoriser library reports it: a value in [0, 1]. */
  type UnitReal = r: real | 0.0 <= r <= 1.0

  /** Every entry of `xs` lowered. */
  function LowerAll(xs: seq<string>): (r: seq<string>)
    ensures |r| == |xs|
    ensures forall i :: 0 <= i < |xs| ==> r[i] == Lower(xs[i])
  {
    seq(|xs|, i requires 0 <= i < |xs| => Lower(xs[i]))
  }

  lemma LowerAllIdempotent(xs: seq<string>)
    ensures LowerAll(LowerAll(xs)) == LowerAll(xs)
  {
    forall i | 0 <= i < |xs| ensures LowerAll(LowerAll(xs))[i] == LowerAll(xs)[i] {
      LowerIdempotent(xs[i]);
    }
  }

  lemma RatioBounds(c: nat, n: nat)
    requires 0 < n && c <= n
    ensures 0.0 <= (c as real) / (n as real) <= 1.0
    ensures (c as real) / (n as real) == 1.0 <==> c == n
  {
    var q := (c as real) / (n as real);
    assert q * (n as real) == c as real;
  }

  lemma SubsetCard<T>(a: set<T>, b: set<T>)
    requires a <= b
    ensures |a| <= |b|
  {
    assert b == a + (b - a);
    assert a * (b - a) == {};
  }

  /** Equal-sized finite sets one inside the other are equal. */
  lemma SubsetSameSize<T>(a: set<T>, b: set<T>)
    requires a <= b && |a| == |b|
    ensures a == b
  {
    if a != b {
      var x :| x in b && x !in a;
      SubsetCard(a, b - {x});
    }
  }

  /** The overlap of two lists never has more elements than the second list
      has entries, and has exactly that many when the second list is
      duplicate-free and contained in the first. */
  lemma OverlapCount<T>(xs: seq<T>, ys: seq<T>)
    ensures |ToSet(xs) * ToSet(ys)| <= |ys|
    ensures |ToSet(xs) * ToSet(ys)| == |ys| <==> ToSet(ys) <= ToSet(xs) && Distinct(ys)
  {
    var common, js := ToSet(xs) * ToSet(ys), ToSet(ys);
    CardToSet(ys);
    SubsetCard(common, js);
    if |common| == |ys| {
      SubsetSameSize(common, js);
      assert js <= ToSet(xs);
    }
    if js <= ToSet(xs) && Distinct(ys) {
      assert common == js;
    }
  }

  /** The share of the entries of `ys` whose values `xs` also holds, counting
      each value once: it reaches 1 exactly when `ys` is duplicate-free and
      contained in `xs`. */
  function CoverageRatio<T(==)>(xs: seq<T>, ys: seq<T>): (r: UnitReal)
    requires |ys| > 0
    ensures r == 1.0 <==> ToSet(ys) <= ToSet(xs) && Distinct(ys)
  {
    var c := |ToSet(xs) * ToSet(ys)|;
    OverlapCount(xs, ys);
    RatioBounds(c, |ys|);
    (c as real) / (|ys| as real)
  }
}
