/**
 The voting session: the comparison list fixed at start, the cursor
 `current` into it, the score table and the undo history, together with
 the operations the buttons and keys trigger (vote left/right, undo, the
 `r` restart and the refresh button) and the invariants they keep.
 */
module Session {
  import opened Items
  import opened Pairs
  import opened Shuffle
  import opened Scores
  import opened Ranking
  import opened Wrappers

  /** One undo-log record: the pair that was shown and the item chosen. */
  datatype HistoryEntry = HistoryEntry(pair: Pair, winner: Item)

  /** The engine's state: the selection, the comparisons, the cursor, the scores and the history. */
  datatype State = State(
    selection: seq<Item>,
    comparisons: seq<Pair>,
    current: nat,
    scores: ScoreTable,
    history: seq<HistoryEntry>)

  /** What showNext puts on screen: the current pair, or the result list once every pair is voted. */
  datatype View =
    | Showing(left: string, right: string, undoVisible: bool)
    | Finished(lines: seq<string>)

  /** The user's commands: the two choices, undo, the `r` restart and the refresh button. */
  datatype Command =
    | ChooseLeft
    | ChooseRight
    | UndoLast
    | Restart(draws: seq<nat>)
    | Refresh

  /**
   generateComparisons: every pair `(sel[i], sel[j])` with `i < j`, then the
   shuffle. The list has n(n-1)/2 pairs, holds the same pairs as the
   unshuffled list, and with distinct names is a complete, duplicate-free
   comparison list (script.js:43-51).
   */
  function GenerateComparisons(sel: seq<Item>, draws: seq<nat>): (cs: seq<Pair>)
    requires ValidDraws(draws, PairCount(|sel|))
    ensures |cs| == PairCount(|sel|)
    ensures multiset(cs) == multiset(AllPairs(sel))
    ensures DistinctNames(sel) ==> ComparisonsOf(sel, cs)
  {
    AllPairsCount(sel);
    var cs := FisherYates(AllPairs(sel), draws);
    ShufflePermutes(AllPairs(sel), draws, |AllPairs(sel)| - 1);
    assert DistinctNames(sel) ==> ComparisonsOf(sel, cs) by {
      if DistinctNames(sel) {
        AllPairsAreComparisons(sel);
        ShuffleKeepsComparisons(sel, AllPairs(sel), draws);
      }
    }
    cs
  }

  /**
   Start (and the `r` key): cursor 0, empty history, every selected
   name scored 0, a freshly shuffled comparison list (script.js:29-32, 149-152).
   */
  function Start(sel: seq<Item>, draws: seq<nat>): (st: State)
    requires ValidDraws(draws, PairCount(|sel|))
    ensures st.selection == sel
    ensures st.current == 0 && st.history == []
    ensures forall x :: x in st.scores.value <==> x in Names(sel)
    ensures forall x :: x in st.scores.value ==> st.scores.value[x] == 0
    ensures DistinctNames(sel) ==> st.scores.order == Names(sel)
    ensures |st.comparisons| == PairCount(|sel|)
    ensures DistinctNames(sel) ==> ComparisonsOf(sel, st.comparisons)
  {
    State(sel, GenerateComparisons(sel, draws), 0, InitScores(sel), [])
  }

  /**
   vote(winner): record the shown pair with its winner, add one to the
   winner's score and move the cursor on (script.js:78-84). The source reads
   `comparisons[current]`, so a pair must be showing; and the winner's name
   must be a key of the table (otherwise the source stores NaN).
   */
  function Vote(st: State, w: Item): (r: State)
    requires st.current < |st.comparisons|
    requires w.name in st.scores.value
    ensures r.selection == st.selection && r.comparisons == st.comparisons
    ensures r.current == st.current + 1
    ensures |r.history| == |st.history| + 1
    ensures r.history[..|st.history|] == st.history
    ensures r.history[|st.history|] == HistoryEntry(st.comparisons[st.current], w)
    ensures r.scores.order == st.scores.order && r.scores.value.Keys == st.scores.value.Keys
    ensures r.scores.value[w.name] == st.scores.value[w.name] + 1
    ensures forall x :: x in st.scores.value && x != w.name ==> r.scores.value[x] == st.scores.value[x]
  {
    var entry := HistoryEntry(st.comparisons[st.current], w);
    assert (st.history + [entry])[..|st.history|] == st.history;
    st.(history := st.history + [entry],
        scores := Bump(st.scores, w.name, 1),
        current := st.current + 1)
  }

  /** The scores after a vote are the scores before it with the winner's entry one higher. */
  lemma VoteScores(st: State, w: Item)
    requires st.current < |st.comparisons|
    requires w.name in st.scores.value
    ensures Vote(st, w).scores.value == st.scores.value[w.name := st.scores.value[w.name] + 1]
  {
    var r := Vote(st, w).scores.value;
    assert forall x :: x in r <==> x in st.scores.value;
  }

  /**
   undoLast: with an empty history or the cursor at 0 nothing happens;
   otherwise the cursor steps back, the last history entry is popped and its
   winner loses one point (script.js:87-93).
   */
  function Undo(st: State): (r: State)
    requires st.history != [] && st.current != 0 ==> st.history[|st.history| - 1].winner.name in st.scores.value
    ensures st.history == [] || st.current == 0 ==> r == st
    ensures st.history != [] && st.current != 0 ==>
      var last := st.history[|st.history| - 1];
      && r.selection == st.selection && r.comparisons == st.comparisons
      && r.current == st.current - 1
      && r.history == st.history[..|st.history| - 1]
      && r.scores.order == st.scores.order && r.scores.value.Keys == st.scores.value.Keys
      && r.scores.value[last.winner.name] == st.scores.value[last.winner.name] - 1
      && forall x :: x in st.scores.value && x != last.winner.name ==> r.scores.value[x] == st.scores.value[x]
  {
    if st.history == [] || st.current == 0 then st
    else
      var last := st.history[|st.history| - 1];
      st.(current := st.current - 1,
          history := st.history[..|st.history| - 1],
          scores := Bump(st.scores, last.winner.name, -1))
  }

  /**
   The refresh button: only the cursor and the history are reset; the scores
   and the comparison list are left as they are (script.js:113-114).
   */
  function RefreshSession(st: State): (r: State)
    ensures r.current == 0 && r.history == []
    ensures r.scores == st.scores && r.comparisons == st.comparisons && r.selection == st.selection
  {
    st.(current := 0, history := [])
  }

  /**
   A left or right choice. The source evaluates `comparisons[current][0]`
   (or `[1]`) before calling vote; past the last pair that throws, and the
   state is left as it was (script.js:136-137, 144-147).
   */
  function Choose(st: State, side: Side): (r: State)
    requires st.current < |st.comparisons| ==> Pick(st.comparisons[st.current], side).name in st.scores.value
    ensures r.selection == st.selection && r.comparisons == st.comparisons
    ensures st.current >= |st.comparisons| ==> r == st
    ensures st.current < |st.comparisons| ==>
      && r.current == st.current + 1
      && r.history == st.history + [HistoryEntry(st.comparisons[st.current], Pick(st.comparisons[st.current], side))]
    ensures st.current < |st.comparisons| ==> r == Vote(st, Pick(st.comparisons[st.current], side))
    ensures st.current < |st.comparisons| ==>
      var w := Pick(st.comparisons[st.current], side).name;
      && r.scores.order == st.scores.order
      && r.scores.value == st.scores.value[w := st.scores.value[w] + 1]
  {
    if st.current >= |st.comparisons| then st
    else
      VoteScores(st, Pick(st.comparisons[st.current], side));
      Vote(st, Pick(st.comparisons[st.current], side))
  }

  /** Every name the session can vote for or undo is a key of the score table. */
  ghost predicate WellFormed(st: State)
  {
    && Scores.Wf(st.scores)
    && (forall p :: p in st.comparisons ==> p.left.name in st.scores.value && p.right.name in st.scores.value)
    && (forall e :: e in st.history ==> e.winner.name in st.scores.value)
  }

  /** Every restart in `cmds` carries a valid oracle for the selection's pair count. */
  predicate DrawsFit(sel: seq<Item>, cmds: seq<Command>)
  {
    forall k :: 0 <= k < |cmds| && cmds[k].Restart? ==> ValidDraws(cmds[k].draws, PairCount(|sel|))
  }

  /** One user action. */
  function Step(st: State, cmd: Command): (r: State)
    requires WellFormed(st)
    requires cmd.Restart? ==> ValidDraws(cmd.draws, PairCount(|st.selection|))
    ensures r.selection == st.selection
    ensures !cmd.Restart? ==> r.comparisons == st.comparisons && r.scores.order == st.scores.order
    ensures cmd.Restart? || cmd.Refresh? ==> r.current == 0 && r.history == []
  {
    match cmd
    case ChooseLeft => Choose(st, Left)
    case ChooseRight => Choose(st, Right)
    case UndoLast => Undo(st)
    case Restart(draws) => Start(st.selection, draws)
    case Refresh => RefreshSession(st)
  }

  /** A sequence of user actions, one after the other. */
  function Run(st: State, cmds: seq<Command>): State
    requires WellFormed(st)
    requires DrawsFit(st.selection, cmds)
    decreases |cmds|
  {
    if cmds == [] then st
    else
      StepKeepsWellFormed(st, cmds[0]);
      Run(Step(st, cmds[0]), cmds[1..])
  }

  /** showNext: the result list once the cursor has passed the last pair, the current pair before that. */
  function ShowNext(st: State): (v: View)
    requires WellFormed(st)
    ensures v.Finished? <==> st.current >= |st.comparisons|
    ensures v.Finished? ==> |v.lines| == |st.scores.order|
    ensures v.Showing? ==>
      && v.left == st.comparisons[st.current].left.name
      && v.right == st.comparisons[st.current].right.name
      && (v.undoVisible <==> st.history != [])
  {
    if st.current >= |st.comparisons| then Finished(Results(st.scores))
    else
      var p := st.comparisons[st.current];
      Showing(p.left.name, p.right.name, |st.history| > 0)
  }

  // ----- Invariants -----

  /** The number of history entries won by `name`. */
  function Wins(h: seq<HistoryEntry>, name: string): nat
    decreases |h|
  {
    if h == [] then 0
    else Wins(h[..|h| - 1], name) + (if h[|h| - 1].winner.name == name then 1 else 0)
  }

  /**
   The cursor counts the history, never passes the end of the list, and the
   `k`-th history entry records the `k`-th pair with one of its two items
   as winner.
   */
  ghost predicate Consistent(st: State)
  {
    && |st.history| == st.current <= |st.comparisons|
    && forall k :: 0 <= k < |st.history| ==>
         st.history[k].pair == st.comparisons[k]
         && (st.history[k].winner == st.comparisons[k].left || st.history[k].winner == st.comparisons[k].right)
  }

  /** Every score is the number of history entries it won. */
  ghost predicate Tallied(st: State)
  {
    forall x :: x in st.scores.value ==> st.scores.value[x] == Wins(st.history, x)
  }

  /** Every score is at least the number of history entries it won. */
  ghost predicate Dominates(st: State)
  {
    forall x :: x in st.scores.value ==> st.scores.value[x] >= Wins(st.history, x)
  }

  lemma WinsAppend(h: seq<HistoryEntry>, e: HistoryEntry, name: string)
    ensures Wins(h + [e], name) == Wins(h, name) + (if e.winner.name == name then 1 else 0)
  {
    assert (h + [e])[..|h|] == h;
  }

  /** A fresh session is well formed, consistent and tallied. */
  lemma StartInvariants(sel: seq<Item>, draws: seq<nat>)
    requires ValidDraws(draws, PairCount(|sel|))
    ensures WellFormed(Start(sel, draws))
    ensures Consistent(Start(sel, draws))
    ensures Tallied(Start(sel, draws))
  {
    var st := Start(sel, draws);
    AllPairsCount(sel);
    PairsUpToSound(sel, |sel|);
    ShufflePermutes(AllPairs(sel), draws, |AllPairs(sel)| - 1);
    forall p | p in st.comparisons
      ensures p.left.name in st.scores.value && p.right.name in st.scores.value
    {
      assert p in multiset(st.comparisons);
      assert p in AllPairs(sel);
      assert PairBelow(sel, p, |sel|);
      var a, b :| 0 <= a < b < |sel| && a < |sel| && p == Pair(sel[a], sel[b]);
      assert Names(sel)[a] == p.left.name && Names(sel)[b] == p.right.name;
    }
  }

  /** A vote moves the winner's score and its recorded wins together, and nothing else. */
  lemma VoteBalance(st: State, w: Item)
    requires st.current < |st.comparisons|
    requires w.name in st.scores.value
    ensures forall x :: x in st.scores.value ==>
      Vote(st, w).scores.value[x] - Wins(Vote(st, w).history, x) == st.scores.value[x] - Wins(st.history, x)
  {
    var r := Vote(st, w);
    var e := HistoryEntry(st.comparisons[st.current], w);
    assert r.history == st.history + [e];
    forall x | x in st.scores.value
      ensures r.scores.value[x] - Wins(r.history, x) == st.scores.value[x] - Wins(st.history, x)
    {
      WinsAppend(st.history, e, x);
    }
  }

  /** A vote for a name of the table keeps every recorded name in the table. */
  lemma VoteWellFormed(st: State, w: Item)
    requires WellFormed(st)
    requires st.current < |st.comparisons|
    requires w.name in st.scores.value
    ensures WellFormed(Vote(st, w))
  {
    var r := Vote(st, w);
    forall e | e in r.history
      ensures e.winner.name in r.scores.value
    {
      var k :| 0 <= k < |r.history| && r.history[k] == e;
      if k < |st.history| {
        assert r.history[k] == r.history[..|st.history|][k];
        assert st.history[k] in st.history;
      }
    }
  }

  /** A vote for one of the two shown items records the shown pair at the cursor. */
  lemma VoteConsistent(st: State, w: Item)
    requires Consistent(st)
    requires st.current < |st.comparisons|
    requires w.name in st.scores.value
    requires w == st.comparisons[st.current].left || w == st.comparisons[st.current].right
    ensures Consistent(Vote(st, w))
  {
    var r := Vote(st, w);
    forall k | 0 <= k < |r.history|
      ensures r.history[k].pair == r.comparisons[k]
      ensures r.history[k].winner == r.comparisons[k].left || r.history[k].winner == r.comparisons[k].right
    {
      if k < |st.history| {
        assert r.history[k] == r.history[..|st.history|][k];
      }
    }
  }

  /** A choice keeps the session well formed, consistent, tallied and dominated; past the last pair it changes nothing. */
  lemma ChooseKeeps(st: State, side: Side)
    requires WellFormed(st)
    ensures WellFormed(Choose(st, side))
    ensures Consistent(st) ==> Consistent(Choose(st, side))
    ensures Tallied(st) ==> Tallied(Choose(st, side))
    ensures Dominates(st) ==> Dominates(Choose(st, side))
    ensures st.current >= |st.comparisons| ==> Choose(st, side) == st
  {
    if st.current < |st.comparisons| {
      var w := Pick(st.comparisons[st.current], side);
      assert st.comparisons[st.current] in st.comparisons;
      VoteBalance(st, w);
      VoteWellFormed(st, w);
      if Consistent(st) {
        VoteConsistent(st, w);
      }
    }
  }

  /** Undo keeps the session well formed, consistent, tallied and dominated. */
  lemma UndoKeeps(st: State)
    requires WellFormed(st)
    ensures WellFormed(Undo(st))
    ensures Consistent(st) ==> Consistent(Undo(st))
    ensures Tallied(st) ==> Tallied(Undo(st))
    ensures Dominates(st) ==> Dominates(Undo(st))
  {
    if st.history != [] && st.current != 0 {
      var r := Undo(st);
      var last := st.history[|st.history| - 1];
      assert st.history == r.history + [last];
      forall x | x in r.scores.value
        ensures r.scores.value[x] - Wins(r.history, x) == st.scores.value[x] - Wins(st.history, x)
      {
        WinsAppend(r.history, last, x);
      }
      forall e | e in r.history
        ensures e.winner.name in r.scores.value
      {
        assert e in st.history;
      }
    }
  }

  /** Every action keeps the session well formed and consistent, with scores at least the wins they record. */
  lemma StepKeepsWellFormed(st: State, cmd: Command)
    requires WellFormed(st)
    requires cmd.Restart? ==> ValidDraws(cmd.draws, PairCount(|st.selection|))
    ensures WellFormed(Step(st, cmd))
    ensures Step(st, cmd).selection == st.selection
    ensures Consistent(st) ==> Consistent(Step(st, cmd))
    ensures Dominates(st) ==> Dominates(Step(st, cmd))
    ensures Tallied(st) && !cmd.Refresh? ==> Tallied(Step(st, cmd))
  {
    match cmd
    case ChooseLeft => ChooseKeeps(st, Left);
    case ChooseRight => ChooseKeeps(st, Right);
    case UndoLast => UndoKeeps(st);
    case Restart(draws) => StartInvariants(st.selection, draws);
    case Refresh =>
  }

  /**
   Any run of actions from a well-formed, consistent state keeps it so, and
   keeps every score at least the number of recorded wins (so scores are
   never negative), whatever the actions, refresh included
   (script.js:29-32, 78-93, 113-114, 149-152).
   */
  lemma {:induction false} RunKeepsConsistent(st: State, cmds: seq<Command>)
    requires WellFormed(st) && Consistent(st) && Dominates(st)
    requires DrawsFit(st.selection, cmds)
    ensures WellFormed(Run(st, cmds)) && Consistent(Run(st, cmds)) && Dominates(Run(st, cmds))
    decreases |cmds|
  {
    if cmds != [] {
      StepKeepsWellFormed(st, cmds[0]);
      RunKeepsConsistent(Step(st, cmds[0]), cmds[1..]);
    }
  }

  /**
   Without the refresh button, every score stays exactly the number of
   history entries its name won (script.js:29-32, 78-93, 149-152).
   */
  lemma {:induction false} RunKeepsTally(st: State, cmds: seq<Command>)
    requires WellFormed(st) && Tallied(st)
    requires DrawsFit(st.selection, cmds)
    requires forall k :: 0 <= k < |cmds| ==> !cmds[k].Refresh?
    ensures Tallied(Run(st, cmds))
    decreases |cmds|
  {
    if cmds != [] {
      StepKeepsWellFormed(st, cmds[0]);
      RunKeepsTally(Step(st, cmds[0]), cmds[1..]);
    }
  }

  /**
   No command changes the selection, and with distinct names the key order
   stays the selection order: a restart rebuilds it that way and every other
   command leaves it alone.
   */
  lemma {:induction false} RunKeepsOrder(st: State, cmds: seq<Command>)
    requires WellFormed(st)
    requires DrawsFit(st.selection, cmds)
    requires DistinctNames(st.selection) ==> st.scores.order == Names(st.selection)
    ensures Run(st, cmds).selection == st.selection
    ensures DistinctNames(st.selection) ==> Run(st, cmds).scores.order == Names(st.selection)
    decreases |cmds|
  {
    if cmds != [] {
      StepKeepsWellFormed(st, cmds[0]);
      RunKeepsOrder(Step(st, cmds[0]), cmds[1..]);
    }
  }

  /**
   Every state reachable from a start: the cursor equals the history length
   and stays within the list, each history entry records the pair shown at
   its position, scores are never negative and never below the wins they
   record, and, when the refresh button was not used, every score is
   exactly its number of wins.
   */
  lemma Reachable(sel: seq<Item>, draws: seq<nat>, cmds: seq<Command>)
    requires ValidDraws(draws, PairCount(|sel|))
    requires DrawsFit(sel, cmds)
    ensures WellFormed(Start(sel, draws))
    ensures var st := Run(Start(sel, draws), cmds);
      && WellFormed(st)
      && Consistent(st)
      && (DistinctNames(sel) ==> st.scores.order == Names(sel))
      && (forall x :: x in st.scores.value ==> st.scores.value[x] >= Wins(st.history, x) >= 0)
      && ((forall k :: 0 <= k < |cmds| ==> !cmds[k].Refresh?) ==> Tallied(st))
  {
    StartInvariants(sel, draws);
    RunKeepsConsistent(Start(sel, draws), cmds);
    RunKeepsOrder(Start(sel, draws), cmds);
    if forall k :: 0 <= k < |cmds| ==> !cmds[k].Refresh? {
      RunKeepsTally(Start(sel, draws), cmds);
    }
  }

  /**
   The refresh button does not keep the tally: from any tallied state with
   at least one vote cast, the last winner keeps its point while the history
   is emptied (script.js:113-114).
   */
  lemma RefreshBreaksTally(st: State)
    requires WellFormed(st) && Tallied(st)
    requires st.history != []
    ensures !Tallied(RefreshSession(st))
  {
    var h := st.history;
    var last := h[|h| - 1];
    assert last in h;
    assert h == h[..|h| - 1] + [last];
    WinsAppend(h[..|h| - 1], last, last.winner.name);
    assert st.scores.value[last.winner.name] >= 1;
    assert Wins(RefreshSession(st).history, last.winner.name) == 0;
  }

  // ----- Round trips -----

  /**
   vote followed by undoLast restores cursor, history and scores exactly,
   so the same pair is shown again (script.js:78-93).
   */
  lemma VoteUndoRoundTrip(st: State, w: Item)
    requires st.current < |st.comparisons|
    requires w.name in st.scores.value
    ensures Undo(Vote(st, w)) == st
  {
    var v := Vote(st, w);
    assert v.history[..|v.history| - 1] == st.history;
    assert Bump(v.scores, w.name, -1).value == st.scores.value;
  }

  /**
   Undoing the last vote and casting it again gives back the same state, in
   every consistent state with a non-empty history.
   */
  lemma UndoVoteRoundTrip(st: State)
    requires WellFormed(st) && Consistent(st)
    requires st.history != []
    ensures var last := st.history[|st.history| - 1];
      Vote(Undo(st), last.winner) == st
  {
    var last := st.history[|st.history| - 1];
    var u := Undo(st);
    assert last in st.history;
    var v := Vote(u, last.winner);
    assert v.history == st.history;
    assert v.scores.value == st.scores.value;
  }

  // ----- Completion -----

  /** Each choice while a pair is showing moves the cursor by one. */
  lemma {:induction false} ChoicesAdvance(st: State, cmds: seq<Command>)
    requires WellFormed(st)
    requires forall k :: 0 <= k < |cmds| ==> cmds[k] == ChooseLeft || cmds[k] == ChooseRight
    requires st.current + |cmds| <= |st.comparisons|
    ensures DrawsFit(st.selection, cmds)
    ensures Run(st, cmds).current == st.current + |cmds|
    ensures Run(st, cmds).comparisons == st.comparisons
    decreases |cmds|
  {
    if cmds != [] {
      StepKeepsWellFormed(st, cmds[0]);
      ChoicesAdvance(Step(st, cmds[0]), cmds[1..]);
    }
  }

  /**
   Once the cursor has passed the last pair, showNext displays the result
   list: one line per key of the table, line `k` reading back as rank `k`
   and the `k`-th ranked name, every key exactly once (script.js:62-68).
   */
  lemma FinishedShowsResults(st: State)
    requires WellFormed(st)
    requires st.current >= |st.comparisons|
    ensures ShowNext(st) == Finished(Results(st.scores))
    ensures |Results(st.scores)| == |st.scores.order|
    ensures forall k :: 0 <= k < |Results(st.scores)| ==>
      ParseLine(Results(st.scores)[k]) == Some(RankedLine(k + 1, Ranked(st.scores)[k].name))
    ensures forall x :: x in st.scores.order <==> exists k :: 0 <= k < |Ranked(st.scores)| && Ranked(st.scores)[k].name == x
  {
    ResultsSpec(st.scores);
  }

  /**
   After exactly n(n-1)/2 choices from a start every pair has been voted,
   the cursor sits at the end of the list and the score keys are still the
   selected names in selection order, so the result list has one line per
   selected item.
   */
  lemma CompletesAfterAllPairs(sel: seq<Item>, draws: seq<nat>, cmds: seq<Command>)
    requires ValidDraws(draws, PairCount(|sel|))
    requires DistinctNames(sel)
    requires forall k :: 0 <= k < |cmds| ==> cmds[k] == ChooseLeft || cmds[k] == ChooseRight
    requires |cmds| == PairCount(|sel|)
    ensures WellFormed(Start(sel, draws)) && DrawsFit(sel, cmds)
    ensures var st := Run(Start(sel, draws), cmds);
      && WellFormed(st)
      && st.current == |st.comparisons|
      && st.scores.order == Names(sel)
      && |Results(st.scores)| == |sel|
  {
    var s0 := Start(sel, draws);
    StartInvariants(sel, draws);
    ChoicesAdvance(s0, cmds);
    RunKeepsConsistent(s0, cmds);
    ChoicesKeepKeys(s0, cmds);
    var st := Run(s0, cmds);
    FinishedShowsResults(st);
  }

  /** Choices never add or reorder score keys. */
  lemma {:induction false} ChoicesKeepKeys(st: State, cmds: seq<Command>)
    requires WellFormed(st)
    requires forall k :: 0 <= k < |cmds| ==> cmds[k] == ChooseLeft || cmds[k] == ChooseRight
    requires DrawsFit(st.selection, cmds)
    ensures Run(st, cmds).scores.order == st.scores.order
    decreases |cmds|
  {
    if cmds != [] {
      StepKeepsWellFormed(st, cmds[0]);
      ChoicesKeepKeys(Step(st, cmds[0]), cmds[1..]);
    }
  }
}
