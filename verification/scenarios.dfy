/** Two small sessions worked through end to end. */
module Scenarios {
  import opened Items
  import opened Pairs
  import opened Shuffle
  import opened Scores
  import opened Ranking
  import opened Session

  /** Drawing `j == i` at every step swaps each position with itself. */
  lemma {:induction false} IdentityDrawsKeepOrder<T>(s: seq<T>, draws: seq<nat>, i: int)
    requires i < |s|
    requires ValidDraws(draws, |s|)
    requires forall k :: 0 <= k < |s| ==> draws[k] == k
    ensures ShuffleFrom(s, draws, i) == s
    decreases i
  {
    if i > 0 {
      assert Swap(s, i, draws[i]) == s;
      IdentityDrawsKeepOrder(s, draws, i - 1);
    }
  }

  lemma PairsOfThree(a: Item, b: Item, c: Item)
    ensures AllPairs([a, b, c]) == [Pair(a, b), Pair(a, c), Pair(b, c)]
  {
    var sel := [a, b, c];
    assert PairsUpTo(sel, 1) == [Pair(a, b), Pair(a, c)] by {
      assert Row(sel, 0) == [Pair(a, b), Pair(a, c)];
    }
    assert PairsUpTo(sel, 2) == [Pair(a, b), Pair(a, c), Pair(b, c)] by {
      assert Row(sel, 1) == [Pair(b, c)];
    }
    assert Row(sel, 2) == [];
  }

  lemma PairsOfTwo(x: Item, y: Item)
    ensures AllPairs([x, y]) == [Pair(x, y)]
  {
    var sel := [x, y];
    assert PairsUpTo(sel, 1) == [Pair(x, y)] by {
      assert Row(sel, 0) == [Pair(x, y)];
    }
    assert Row(sel, 1) == [];
  }

  lemma SmallNumbers()
    ensures Show(1) == "1" && Show(2) == "2" && Show(3) == "3"
  {
  }

  lemma ThreeComparisons(a: Item, b: Item, c: Item)
    ensures ValidDraws([0, 1, 2], PairCount(3))
    ensures GenerateComparisons([a, b, c], [0, 1, 2]) == [Pair(a, b), Pair(a, c), Pair(b, c)]
  {
    PairsOfThree(a, b, c);
    IdentityDrawsKeepOrder(AllPairs([a, b, c]), [0, 1, 2], 2);
  }

  lemma ThreeScores()
    ensures InitScores([Item("A", ""), Item("B", ""), Item("C", "")]) == ScoreTable(["A", "B", "C"], map["A" := 0, "B" := 0, "C" := 0])
  {
    var sel := [Item("A", ""), Item("B", ""), Item("C", "")];
    assert sel[..2] == [Item("A", ""), Item("B", "")];
    assert sel[..2][..1] == [Item("A", "")];
    assert sel[..2][..1][..0] == [];
  }

  lemma ThreeStart(a: Item, b: Item, c: Item)
    requires a == Item("A", "") && b == Item("B", "") && c == Item("C", "")
    ensures ValidDraws([0, 1, 2], PairCount(3))
    ensures Start([a, b, c], [0, 1, 2]).comparisons == [Pair(a, b), Pair(a, c), Pair(b, c)]
    ensures Start([a, b, c], [0, 1, 2]).scores == ScoreTable(["A", "B", "C"], map["A" := 0, "B" := 0, "C" := 0])
  {
    ThreeComparisons(a, b, c);
    ThreeScores();
  }

  lemma NamesABC()
    ensures "A" != "B" && "A" != "C" && "B" != "C"
  {
    assert "A"[0] != "B"[0] && "A"[0] != "C"[0] && "B"[0] != "C"[0];
  }

  /** Votes a > b, a > c, b > c over three distinct names score them 2, 1 and 0. */
  lemma ThreeVotes(s0: State, a: Item, b: Item, c: Item)
    requires a.name != b.name && a.name != c.name && b.name != c.name
    requires |s0.comparisons| == 3 && s0.current == 0
    requires s0.scores == ScoreTable([a.name, b.name, c.name], map[a.name := 0, b.name := 0, c.name := 0])
    ensures Vote(Vote(Vote(s0, a), a), b).scores == ScoreTable([a.name, b.name, c.name], map[a.name := 2, b.name := 1, c.name := 0])
  {
    var s1 := Vote(s0, a);
    VoteScores(s0, a);
    assert s1.scores.value == map[a.name := 1, b.name := 0, c.name := 0];
    var s2 := Vote(s1, a);
    VoteScores(s1, a);
    assert s2.scores.value == map[a.name := 2, b.name := 0, c.name := 0];
    var s3 := Vote(s2, b);
    VoteScores(s2, b);
    assert s3.scores.value == map[a.name := 2, b.name := 1, c.name := 0];
  }

  lemma ThreeEntries()
    ensures Entries(ScoreTable(["A", "B", "C"], map["A" := 2, "B" := 1, "C" := 0])) == [Entry("A", 2), Entry("B", 1), Entry("C", 0)]
  {
  }

  lemma ThreeSorted()
    ensures SortDesc([Entry("A", 2), Entry("B", 1), Entry("C", 0)]) == [Entry("A", 2), Entry("B", 1), Entry("C", 0)]
  {
    var es := [Entry("A", 2), Entry("B", 1), Entry("C", 0)];
    assert SortedDesc(es);
    SortDescIsTheStableSort(es, es);
  }

  lemma ThreeResults()
    ensures Results(ScoreTable(["A", "B", "C"], map["A" := 2, "B" := 1, "C" := 0])) == ["1. A", "2. B", "3. C"]
  {
    var t := ScoreTable(["A", "B", "C"], map["A" := 2, "B" := 1, "C" := 0]);
    ThreeEntries();
    ThreeSorted();
    SmallNumbers();
    var r := Results(t);
    assert r[0] == Line(1, "A") == "1. A";
    assert r[1] == Line(2, "B") == "2. B";
    assert r[2] == Line(3, "C") == "3. C";
  }

  /**
   Selection A, B, C with the order left as generated: A beats B, A beats C,
   B beats C gives scores 2, 1, 0 and the result list "1. A", "2. B", "3. C".
   */
  lemma ThreeItems()
    ensures ValidDraws([0, 1, 2], PairCount(3))
    ensures var a, b, c := Item("A", ""), Item("B", ""), Item("C", "");
      var s0 := Start([a, b, c], [0, 1, 2]);
      && s0.comparisons == [Pair(a, b), Pair(a, c), Pair(b, c)]
      && Results(Vote(Vote(Vote(s0, a), a), b).scores) == ["1. A", "2. B", "3. C"]
  {
    var a, b, c := Item("A", ""), Item("B", ""), Item("C", "");
    ThreeStart(a, b, c);
    NamesABC();
    ThreeVotes(Start([a, b, c], [0, 1, 2]), a, b, c);
    ThreeResults();
  }

  lemma TwoStart(x: Item, y: Item)
    requires x == Item("X", "") && y == Item("Y", "")
    ensures ValidDraws([0], PairCount(2))
    ensures Start([x, y], [0]).comparisons == [Pair(x, y)]
    ensures Start([x, y], [0]).scores == ScoreTable(["X", "Y"], map["X" := 0, "Y" := 0])
  {
    var sel := [x, y];
    PairsOfTwo(x, y);
    assert DistinctNames(sel) by {
      assert Names(sel) == ["X", "Y"];
    }
  }

  lemma TwoEntries()
    ensures Entries(ScoreTable(["X", "Y"], map["X" := 0, "Y" := 1])) == [Entry("X", 0), Entry("Y", 1)]
  {
  }

  lemma TwoSorted()
    ensures SortDesc([Entry("X", 0), Entry("Y", 1)]) == [Entry("Y", 1), Entry("X", 0)]
  {
    var es := [Entry("X", 0), Entry("Y", 1)];
    var ranked := [Entry("Y", 1), Entry("X", 0)];
    assert SortedDesc(ranked);
    forall v
      ensures WithScore(ranked, v) == WithScore(es, v)
    {
      assert WithScore(ranked, v) == (if v == 1 then [Entry("Y", 1)] else []) + (if v == 0 then [Entry("X", 0)] else []);
      assert WithScore(es, v) == (if v == 0 then [Entry("X", 0)] else []) + (if v == 1 then [Entry("Y", 1)] else []);
    }
    SortDescIsTheStableSort(es, ranked);
  }

  lemma TwoResults()
    ensures Results(ScoreTable(["X", "Y"], map["X" := 0, "Y" := 1])) == ["1. Y", "2. X"]
  {
    var t := ScoreTable(["X", "Y"], map["X" := 0, "Y" := 1]);
    TwoEntries();
    TwoSorted();
    SmallNumbers();
    var r := Results(t);
    assert r[0] == Line(1, "Y") == "1. Y";
    assert r[1] == Line(2, "X") == "2. X";
  }

  lemma TwoVoteUndo(s0: State, x: Item, y: Item)
    requires x == Item("X", "") && y == Item("Y", "")
    requires s0.comparisons == [Pair(x, y)] && s0.current == 0 && s0.history == []
    requires s0.scores == ScoreTable(["X", "Y"], map["X" := 0, "Y" := 0])
    requires WellFormed(s0)
    ensures WellFormed(Vote(s0, y))
    ensures Results(Vote(s0, y).scores) == ["1. Y", "2. X"]
    ensures Undo(Vote(s0, y)) == s0
    ensures ShowNext(s0) == Showing("X", "Y", false)
  {
    var s1 := Vote(s0, y);
    VoteWellFormed(s0, y);
    VoteScores(s0, y);
    assert s1.scores.value == map["X" := 0, "Y" := 1];
    TwoResults();
    VoteUndoRoundTrip(s0, y);
  }

  /**
   Selection X, Y: the single pair is (X, Y); choosing Y gives the result
   list "1. Y", "2. X"; undoing it restores zero scores, the cursor at 0 and
   the pair (X, Y) on screen.
   */
  lemma TwoItemsVoteAndUndo()
    ensures ValidDraws([0], PairCount(2))
    ensures var x, y := Item("X", ""), Item("Y", "");
      var s0 := Start([x, y], [0]);
      && s0.comparisons == [Pair(x, y)]
      && s0.current == 0
      && s0.history == []
      && s0.scores == ScoreTable(["X", "Y"], map["X" := 0, "Y" := 0])
      && WellFormed(s0)
      && WellFormed(Vote(s0, y))
      && Results(Vote(s0, y).scores) == ["1. Y", "2. X"]
      && Undo(Vote(s0, y)) == s0
      && ShowNext(s0) == Showing("X", "Y", false)
  {
    var x, y := Item("X", ""), Item("Y", "");
    TwoStart(x, y);
    var s0 := Start([x, y], [0]);
    StartInvariants([x, y], [0]);
    TwoVoteUndo(s0, x, y);
  }
}
