/**
 The in-place Fisher–Yates shuffle: for `i` from the last index down to 1,
 swap position `i` with a position `j` drawn from `[0, i]`. The random draw
 is an oracle: `draws[i]` is the `j` chosen when the loop index is `i`.
 */
module Shuffle {
  import opened Items
  import opened Pairs

  /** An oracle for a list of length `n`: one draw per loop index, each within `[0, i]`. */
  predicate ValidDraws(draws: seq<nat>, n: nat)
  {
    |draws| == n && forall i :: 0 <= i < n ==> draws[i] <= i
  }

  /** `[a[i], a[j]] = [a[j], a[i]]`. */
  function Swap<T>(s: seq<T>, i: nat, j: nat): (r: seq<T>)
    requires i < |s| && j < |s|
    ensures |r| == |s|
  {
    s[i := s[j]][j := s[i]]
  }

  /** The list once the loop has run for indices `i, i-1, .., 1`. */
  function ShuffleFrom<T>(s: seq<T>, draws: seq<nat>, i: int): seq<T>
    requires i < |s|
    requires ValidDraws(draws, |s|)
    decreases i
  {
    if i <= 0 then s else ShuffleFrom(Swap(s, i, draws[i]), draws, i - 1)
  }

  /** The whole shuffle, starting at the last index. */
  function FisherYates<T>(s: seq<T>, draws: seq<nat>): seq<T>
    requires ValidDraws(draws, |s|)
  {
    ShuffleFrom(s, draws, |s| - 1)
  }

  /** A swap only reorders. */
  lemma SwapPermutes<T>(s: seq<T>, i: nat, j: nat)
    requires i < |s| && j < |s|
    ensures multiset(Swap(s, i, j)) == multiset(s)
  {
    var t := s[i := s[j]];
    assert multiset(t) == multiset(s) - multiset{s[i]} + multiset{s[j]};
    assert multiset(t[j := s[i]]) == multiset(t) - multiset{t[j]} + multiset{s[i]};
  }

  /** The shuffle yields a permutation of its input, whatever the draws (script.js:54-59). */
  lemma {:induction false} ShufflePermutes<T>(s: seq<T>, draws: seq<nat>, i: int)
    requires i < |s|
    requires ValidDraws(draws, |s|)
    ensures |ShuffleFrom(s, draws, i)| == |s|
    ensures multiset(ShuffleFrom(s, draws, i)) == multiset(s)
    decreases i
  {
    if i > 0 {
      SwapPermutes(s, i, draws[i]);
      ShufflePermutes(Swap(s, i, draws[i]), draws, i - 1);
    }
  }

  /** A swap keeps two different positions holding different unordered pairs. */
  lemma SwapKeepsUnique(cs: seq<Pair>, i: nat, j: nat)
    requires i < |cs| && j < |cs|
    requires UniqueUnordered(cs)
    ensures UniqueUnordered(Swap(cs, i, j))
  {
    var r := Swap(cs, i, j);
    forall k1, k2 | 0 <= k1 < |r| && 0 <= k2 < |r| && k1 != k2
      ensures !SameUnordered(r[k1], r[k2])
    {
      var o1 := if k1 == i then j else if k1 == j then i else k1;
      var o2 := if k2 == i then j else if k2 == j then i else k2;
      assert r[k1] == cs[o1] && r[k2] == cs[o2] && o1 != o2;
    }
  }

  /** The shuffle keeps every pair unique up to orientation. */
  lemma {:induction false} ShuffleKeepsUnique(cs: seq<Pair>, draws: seq<nat>, i: int)
    requires i < |cs|
    requires ValidDraws(draws, |cs|)
    requires UniqueUnordered(cs)
    ensures UniqueUnordered(ShuffleFrom(cs, draws, i))
    decreases i
  {
    if i > 0 {
      SwapKeepsUnique(cs, i, draws[i]);
      ShuffleKeepsUnique(Swap(cs, i, draws[i]), draws, i - 1);
    }
  }

  /**
   The shuffle of a complete, duplicate-free comparison list is again one:
   shuffling changes the order of the pairs and nothing else.
   */
  lemma ShuffleKeepsComparisons(sel: seq<Item>, cs: seq<Pair>, draws: seq<nat>)
    requires ValidDraws(draws, |cs|)
    requires ComparisonsOf(sel, cs)
    ensures ComparisonsOf(sel, FisherYates(cs, draws))
  {
    var r := FisherYates(cs, draws);
    ShufflePermutes(cs, draws, |cs| - 1);
    ShuffleKeepsUnique(cs, draws, |cs| - 1);
    forall p
      ensures p in r <==> p in cs
    {
      assert p in r <==> p in multiset(r);
      assert p in cs <==> p in multiset(cs);
    }
  }

  /** The shuffle loop itself, run over a fresh array holding `s`. */
  method FisherYatesShuffle<T>(s: seq<T>, draws: seq<nat>) returns (r: seq<T>)
    requires ValidDraws(draws, |s|)
    ensures r == FisherYates(s, draws)
    ensures |r| == |s|
    ensures multiset(r) == multiset(s)
  {
    var a := new T[|s|](k requires 0 <= k < |s| => s[k]);
    assert a[..] == s;
    var i := |s| - 1;
    while i > 0
      invariant i < |s|
      invariant a.Length == |s|
      invariant ShuffleFrom(a[..], draws, i) == FisherYates(s, draws)
      invariant multiset(a[..]) == multiset(s)
    {
      var j := draws[i];
      SwapPermutes(a[..], i, j);
      assert a[..][i := a[j]][j := a[i]] == Swap(a[..], i, j);
      a[i], a[j] := a[j], a[i];
      i := i - 1;
    }
    r := a[..];
  }
}
