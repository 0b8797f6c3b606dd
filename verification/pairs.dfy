/**
 Pair generation: for a selection `sel`, one pair `(sel[i], sel[j])` for every
 `i < j`, pushed row by row (outer index `i`, inner index `j`), before the
 list is shuffled.
 */
module Pairs {
  import opened Items

  /** The number of unordered pairs of `n` items, n(n-1)/2. */
  function PairCount(n: nat): nat
  {
    n * (n - 1) / 2
  }

  /** The pairs the inner loop pushes for outer index `i`: `(sel[i], sel[j])` for `i < j < |sel|`. */
  function Row(sel: seq<Item>, i: nat): seq<Pair>
    requires i < |sel|
  {
    seq(|sel| - i - 1, k requires 0 <= k < |sel| - i - 1 => Pair(sel[i], sel[i + 1 + k]))
  }

  /** The pairs pushed once the outer loop has finished indices `0 .. i-1`. */
  function PairsUpTo(sel: seq<Item>, i: nat): seq<Pair>
    requires i <= |sel|
    decreases i
  {
    if i == 0 then [] else PairsUpTo(sel, i - 1) + Row(sel, i - 1)
  }

  /** Every pair of the selection in generation order, before shuffling. */
  function AllPairs(sel: seq<Item>): seq<Pair>
  {
    PairsUpTo(sel, |sel|)
  }

  /** `p` is `(sel[a], sel[b])` for some positions `a < b`, with `a` below `bound`. */
  ghost predicate PairBelow(sel: seq<Item>, p: Pair, bound: int)
  {
    exists a, b :: 0 <= a < b < |sel| && a < bound && p == Pair(sel[a], sel[b])
  }

  /** `p` is `(sel[a], sel[b])` for some positions `a < b`. */
  ghost predicate SelectionPair(sel: seq<Item>, p: Pair)
  {
    PairBelow(sel, p, |sel|)
  }

  /** No two positions of `cs` hold the same two items, in either orientation. */
  ghost predicate UniqueUnordered(cs: seq<Pair>)
  {
    forall k1, k2 :: 0 <= k1 < |cs| && 0 <= k2 < |cs| && k1 != k2 ==> !SameUnordered(cs[k1], cs[k2])
  }

  /**
   What the comparison list of a session over `sel` must be: n(n-1)/2 pairs,
   each `(sel[a], sel[b])` with `a < b`, every such pair present, none twice
   in either orientation, and no item paired with itself.
   */
  ghost predicate ComparisonsOf(sel: seq<Item>, cs: seq<Pair>)
  {
    && |cs| == PairCount(|sel|)
    && (forall p :: p in cs ==> SelectionPair(sel, p))
    && (forall a, b :: 0 <= a < b < |sel| ==> Pair(sel[a], sel[b]) in cs)
    && UniqueUnordered(cs)
    && (forall p :: p in cs ==> p.left.name != p.right.name)
  }

  lemma {:induction false} PairsUpToLength(sel: seq<Item>, i: nat)
    requires i <= |sel|
    ensures 2 * |PairsUpTo(sel, i)| == i * (2 * |sel| - i - 1)
    decreases i
  {
    if i > 0 {
      PairsUpToLength(sel, i - 1);
      var n := |sel|;
      assert 2 * |PairsUpTo(sel, i)| == (i - 1) * (2 * n - i) + 2 * (n - i);
      assert (i - 1) * (2 * n - i) == i * (2 * n - i) - (2 * n - i);
      assert i * (2 * n - i) == i * (2 * n - i - 1) + i;
    }
  }

  /** Before shuffling there are exactly n(n-1)/2 pairs (script.js:45-48). */
  lemma AllPairsCount(sel: seq<Item>)
    ensures |AllPairs(sel)| == PairCount(|sel|)
  {
    PairsUpToLength(sel, |sel|);
  }

  /** Every pair pushed while the outer index is below `i` is `(sel[a], sel[b])` with `a < b` and `a < i`. */
  lemma {:induction false} PairsUpToSound(sel: seq<Item>, i: nat)
    requires i <= |sel|
    ensures forall p :: p in PairsUpTo(sel, i) ==> PairBelow(sel, p, i)
    decreases i
  {
    if i > 0 {
      PairsUpToSound(sel, i - 1);
      forall p | p in PairsUpTo(sel, i)
        ensures PairBelow(sel, p, i)
      {
        if p in PairsUpTo(sel, i - 1) {
          assert PairBelow(sel, p, i - 1);
          var a, b :| 0 <= a < b < |sel| && a < i - 1 && p == Pair(sel[a], sel[b]);
          assert a < i;
        } else {
          var row := Row(sel, i - 1);
          assert p in row;
          var k :| 0 <= k < |row| && row[k] == p;
          assert p == Pair(sel[i - 1], sel[i + k]);
        }
      }
    }
  }

  /** Every pair `(sel[a], sel[b])` with `a < b`, `a < i` has been pushed once the outer index reaches `i`. */
  lemma {:induction false} PairsUpToComplete(sel: seq<Item>, i: nat)
    requires i <= |sel|
    ensures forall a, b :: 0 <= a < b < |sel| && a < i ==> Pair(sel[a], sel[b]) in PairsUpTo(sel, i)
    decreases i
  {
    if i > 0 {
      PairsUpToComplete(sel, i - 1);
      forall a, b | 0 <= a < b < |sel| && a < i
        ensures Pair(sel[a], sel[b]) in PairsUpTo(sel, i)
      {
        if a == i - 1 {
          assert Row(sel, i - 1)[b - i] == Pair(sel[a], sel[b]);
        }
      }
    }
  }

  /** Distinct names make items at different positions differ by name. */
  lemma NamesDiffer(sel: seq<Item>, a: nat, b: nat)
    requires DistinctNames(sel)
    requires a < b < |sel|
    ensures sel[a].name != sel[b].name
  {
    assert Names(sel)[a] == sel[a].name && Names(sel)[b] == sel[b].name;
  }

  /** A pair pushed for an earlier outer index never meets a pair of row `i - 1`. */
  lemma EarlierRowDiffers(sel: seq<Item>, i: nat, p: Pair, m: nat)
    requires 0 < i <= |sel|
    requires DistinctNames(sel)
    requires PairBelow(sel, p, i - 1)
    requires m < |Row(sel, i - 1)|
    ensures !SameUnordered(p, Row(sel, i - 1)[m])
  {
    var a, b :| 0 <= a < b < |sel| && a < i - 1 && p == Pair(sel[a], sel[b]);
    NamesDiffer(sel, a, i - 1);
    NamesDiffer(sel, a, i + m);
  }

  /** Two different positions of one row hold different pairs. */
  lemma SameRowDiffers(sel: seq<Item>, i: nat, m1: nat, m2: nat)
    requires i < |sel|
    requires DistinctNames(sel)
    requires m1 < |Row(sel, i)| && m2 < |Row(sel, i)| && m1 != m2
    ensures !SameUnordered(Row(sel, i)[m1], Row(sel, i)[m2])
    ensures Row(sel, i)[m1].left.name != Row(sel, i)[m1].right.name
  {
    if m1 < m2 {
      NamesDiffer(sel, i + 1 + m1, i + 1 + m2);
    } else {
      NamesDiffer(sel, i + 1 + m2, i + 1 + m1);
    }
    NamesDiffer(sel, i, i + 1 + m1);
    NamesDiffer(sel, i, i + 1 + m2);
  }

  /** With distinct names, no pair is pushed twice (in either orientation) and no item meets itself. */
  lemma {:induction false} PairsUpToUnique(sel: seq<Item>, i: nat)
    requires i <= |sel|
    requires DistinctNames(sel)
    ensures UniqueUnordered(PairsUpTo(sel, i))
    ensures forall p :: p in PairsUpTo(sel, i) ==> p.left.name != p.right.name
    decreases i
  {
    if i > 0 {
      PairsUpToUnique(sel, i - 1);
      PairsUpToSound(sel, i - 1);
      var prev := PairsUpTo(sel, i - 1);
      var row := Row(sel, i - 1);
      var all := PairsUpTo(sel, i);
      assert all == prev + row;
      forall k1, k2 | 0 <= k1 < |all| && 0 <= k2 < |all| && k1 != k2
        ensures !SameUnordered(all[k1], all[k2])
      {
        if k1 < |prev| && k2 < |prev| {
          assert all[k1] == prev[k1] && all[k2] == prev[k2];
        } else if k1 >= |prev| && k2 >= |prev| {
          assert all[k1] == row[k1 - |prev|] && all[k2] == row[k2 - |prev|];
          SameRowDiffers(sel, i - 1, k1 - |prev|, k2 - |prev|);
        } else if k1 < |prev| {
          assert all[k1] == prev[k1] && prev[k1] in prev;
          assert all[k2] == row[k2 - |prev|];
          EarlierRowDiffers(sel, i, prev[k1], k2 - |prev|);
        } else {
          assert all[k2] == prev[k2] && prev[k2] in prev;
          assert all[k1] == row[k1 - |prev|];
          EarlierRowDiffers(sel, i, prev[k2], k1 - |prev|);
        }
      }
      forall p | p in all
        ensures p.left.name != p.right.name
      {
        if p !in prev {
          var k :| 0 <= k < |row| && row[k] == p;
          NamesDiffer(sel, i - 1, i + k);
        }
      }
    }
  }

  /**
   The unshuffled list is exactly the set of pairs of the selection: each
   `(sel[a], sel[b])` with `a < b` appears, nothing else appears, and with
   distinct names nothing appears twice (script.js:43-49).
   */
  lemma AllPairsAreComparisons(sel: seq<Item>)
    requires DistinctNames(sel)
    ensures ComparisonsOf(sel, AllPairs(sel))
  {
    AllPairsCount(sel);
    PairsUpToSound(sel, |sel|);
    PairsUpToComplete(sel, |sel|);
    PairsUpToUnique(sel, |sel|);
  }

  /** The nested loops of generateComparisons (before the shuffle). */
  method GeneratePairs(sel: seq<Item>) returns (r: seq<Pair>)
    ensures r == AllPairs(sel)
    ensures |r| == PairCount(|sel|)
    ensures forall p :: p in r ==> SelectionPair(sel, p)
    ensures forall a, b :: 0 <= a < b < |sel| ==> Pair(sel[a], sel[b]) in r
  {
    r := [];
    var i := 0;
    while i < |sel|
      invariant 0 <= i <= |sel|
      invariant r == PairsUpTo(sel, i)
    {
      var j := i + 1;
      while j < |sel|
        invariant i + 1 <= j <= |sel|
        invariant r == PairsUpTo(sel, i) + Row(sel, i)[..j - i - 1]
      {
        assert Row(sel, i)[..j - i] == Row(sel, i)[..j - i - 1] + [Pair(sel[i], sel[j])];
        r := r + [Pair(sel[i], sel[j])];
        j := j + 1;
      }
      assert Row(sel, i)[..j - i - 1] == Row(sel, i);
      i := i + 1;
    }
    AllPairsCount(sel);
    PairsUpToSound(sel, |sel|);
    PairsUpToComplete(sel, |sel|);
  }
}
