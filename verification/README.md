# Pairwise character sorter — voting engine model

A Dafny model of the voting engine of a small browser tool that ranks a
selection of characters by pairwise preference. The user picks a selection;
the engine builds every pair of selected characters, shuffles them
(Fisher–Yates), shows them one at a time, records which side the user
chose, supports undo, and once every pair has been voted lists the
characters by descending number of wins as lines `"1. name"`, `"2. name"`, ….

The model keeps the engine's logic and drops the browser: the selection is
a parameter, `Math.random` is an oracle of swap indices, and the DOM updates
become a `View` value.

Modules, one per component:

- `Items` (items.dfy): characters, the left/right pairs, sides, distinctness.
- `Pairs` (pairs.dfy): the nested loops that build the pairs, their count
  n(n-1)/2, and the property that they are exactly the unordered pairs of the
  selection, each once.
- `Shuffle` (shuffle.dfy): the in-place Fisher–Yates loop over an array.
  Its functional definition is proved equal to the loop. It yields a
  permutation and keeps the comparison list complete and duplicate-free.
- `Scores` (scores.dfy): the score object. It is a key order plus a
  key-to-score map. For the names the model admits (see "Left out"), the key
  order is insertion order, which is what `Object.entries` walks.
  `initScores` is modelled here.
- `Ranking` (ranking.dfy): the ranking step. A stable sort by descending
  score, specified as sorted, a permutation, and keeping each score's
  entries in table order. A separate lemma shows these three properties pin
  down the result. The `"k. name"` lines come with a parser that reads them
  back.
- `Session` (session.dfy): the state `(selection, comparisons, current,
  scores, history)`. It has start and the `r` restart, `Vote`, `Undo`,
  the refresh button, the left/right choices and `showNext`, plus the
  invariants kept by every run of user commands.
- `Keys` (keys.dfy): the keyboard handler. The key name is lower-cased and
  mapped onto left, right, restart or undo. It comes in two versions: the
  handler as written, and the corrected one that the model uses (see
  "Findings").
- `Scenarios` (scenarios.dfy): the three-item and two-item sessions worked
  through to their result lists.

Points where the code's behaviour is easy to misread:

- The scores do not always equal the recorded wins. The refresh button
  (script.js:113-114) clears the history and the cursor but keeps the
  scores, so after a refresh the scores still count earlier votes. The model
  proves the exact tally only for runs without a refresh
  (`Session.RunKeepsTally`), and proves that a refresh breaks it
  (`Session.RefreshBreaksTally`). For every run, refresh included, it proves
  the weaker invariant "score ≥ recorded wins ≥ 0"
  (`Session.RunKeepsConsistent`).
- There is no check for a selection of fewer than two items. With 0 or 1
  items the comparison list is empty and the results are shown at once. The
  model does the same.
- A choice made after the last pair changes nothing, but not through a
  guard. The click or key handler evaluates `comparisons[current][0]` on
  `undefined` and throws before `vote` runs. The state is therefore
  unchanged, which is how `Session.Choose` models it.
- `undoLast` returns early when `current === 0` as well as when the history
  is empty. `Session.Undo` keeps both guards.
- The refresh button (script.js:107) is reachable only by clicking. No key
  maps to it, so a key press always keeps the exact tally
  (`Keys.PressKeyKeeps`).

## Model

| member | source | states |
|---|---|---|
| `Pairs.GeneratePairs` | script.js:44-49 | The nested loops build exactly the row-by-row pair list: n(n-1)/2 pairs, each `(sel[a], sel[b])` with `a < b`, and every such pair present |
| `Pairs.AllPairsCount` | script.js:45-48 | Before shuffling there are exactly n(n-1)/2 pairs |
| `Pairs.AllPairsAreComparisons` | script.js:43-49 | With distinct names, the unshuffled list holds every pair of distinct selected items exactly once, in either orientation, and nothing else; no item is paired with itself |
| `Pairs.PairsUpToUnique` | script.js:45-48 | No two pushed pairs hold the same two items in either orientation, and no pair holds one item twice |
| `Shuffle.FisherYatesShuffle` | script.js:54-59 | The array swap loop returns the functional Fisher–Yates result for the given draws, with the same length and the same multiset of elements |
| `Shuffle.SwapPermutes` | script.js:57 | The destructuring swap only reorders the array |
| `Shuffle.ShufflePermutes` | script.js:54-59 | For any draws with `0 <= j <= i`, the shuffle yields a permutation of its input |
| `Shuffle.ShuffleKeepsComparisons` | script.js:50-59 | Shuffling a complete, duplicate-free comparison list yields one again: only the order changes |
| `Scores.InitScores` | script.js:37-40 | The keys are exactly the selected names, every score is 0, each key is listed once, and with distinct names the key order is the selection order |
| `Scores.Put` | script.js:39 | Assigning a key keeps an existing key's place and appends a new one at the end of the key order |
| `Scores.Bump` | script.js:81 | Incrementing one key changes that score by the given amount and no other score or key |
| `Ranking.Entries` | script.js:97 | The entry list has one entry per key of the table and no other: each key appears exactly once, with that key's own score, in key insertion order |
| `Ranking.SortDesc` | script.js:97-98 | The sort result is non-increasing in score and a permutation of the entries, and for each score its entries keep their input order (stability) |
| `Ranking.SortDescIsTheStableSort` | script.js:97-98 | Any arrangement that is sorted by descending score and keeps equal scores in input order equals the sort's result |
| `Ranking.Show` | script.js:99 | `${index + 1}` writes a rank as a non-empty string of decimal digits with no leading zero, so together with `Ranking.LineRoundTrip` line k is the canonical text `"k. name"` |
| `Ranking.LineRoundTrip` | script.js:99 | Each line `"${index + 1}. ${name}"` reads back as its rank and name |
| `Ranking.RankedIsTable` | script.js:97-98 | The ranking lists every key of the table exactly once, each with its own score |
| `Ranking.ResultsSpec` | script.js:96-99 | The result list has one line per key; line k reads back as rank k and the k-th ranked name; names are the keys, each once; scores never increase; rank 1 has the maximum score; ties keep the table's key order |
| `Ranking.Results` | script.js:96-99 | The result list has exactly one line per key of the table |
| `Session.GenerateComparisons` | script.js:43-51 | The shuffled list has n(n-1)/2 pairs and the same pairs as the unshuffled list; with distinct names it holds every pair exactly once |
| `Session.Start` | script.js:28-33 | Start and the `r` restart reset the cursor to 0, empty the history, score every selected name 0 and build a fresh comparison list |
| `Session.Vote` | script.js:78-84 | A vote appends exactly one history entry (the shown pair and the winner), adds 1 to the winner's score, leaves every other score and the key order alone, and advances the cursor by 1 |
| `Session.VoteScores` | script.js:81 | After a vote the score map is the old map with exactly the winner's entry one higher |
| `Session.VoteBalance` | script.js:78-84 | A vote raises the winner's score and its recorded wins together, so every score minus its wins is unchanged |
| `Session.VoteConsistent` | script.js:78-84 | Voting for one of the two shown items records the shown pair at the cursor's position, keeping history and cursor in step |
| `Session.Undo` | script.js:87-93 | Undo is a no-op with an empty history or the cursor at 0; otherwise it steps the cursor back, pops exactly the last entry and takes 1 from that entry's winner only |
| `Session.RefreshSession` | script.js:113-114 | The refresh button resets only the cursor and the history; scores and comparisons stay |
| `Session.Choose` | script.js:136-137 | A left or right choice while a pair is showing advances the cursor by one and records that pair with the chosen side's item as winner, and adds 1 to that item's score with every other score and the key order unchanged (it is `Session.Vote` on the chosen item); past the last pair the state is unchanged; the selection and comparison list never change |
| `Session.Step` | script.js:141-158 | Every command keeps the selection; only a restart replaces the comparison list or the key order; a restart or refresh resets the cursor and the history |
| `Session.ShowNext` | script.js:62-75 | The result list is shown exactly when the cursor has passed the last pair, with one line per key; otherwise the buttons show the current pair's two names and undo is visible exactly when the history is non-empty |
| `Session.StartInvariants` | script.js:29-32 | A fresh session is well formed, its cursor equals its history length, and every score equals its wins |
| `Session.ChooseKeeps` | script.js:136-137 | A left or right choice keeps the session well formed and consistent, keeps the tally when it held, and is a no-op once every pair is voted |
| `Session.UndoKeeps` | script.js:87-93 | Undo keeps the session well formed, consistent and tallied |
| `Session.StepKeepsWellFormed` | script.js:141-158 | Every user command keeps the session well formed and consistent; every command except refresh keeps the tally |
| `Session.RunKeepsConsistent` | script.js:78-93 | Any run of commands, refresh included, keeps `\|history\| == current <= \|comparisons\|`, keeps each history entry equal to the pair shown at its position, and keeps every score at least its recorded wins |
| `Session.RunKeepsTally` | script.js:78-93 | Any run of refresh-free commands keeps every score equal to the number of history entries its name won |
| `Session.RunKeepsOrder` | script.js:78-93 | No run of commands (undo, refresh and restart included) changes the selection, and with distinct names the score key order stays the selection order |
| `Session.Reachable` | script.js:25-34 | Every state reachable from a start is well formed (every compared or recorded name is a score key) and consistent, keeps the selection order as its key order when names are distinct (so ties rank in selection order), has no negative score, and is exactly tallied when no refresh was used |
| `Session.RefreshBreaksTally` | script.js:113-114 | After at least one vote, a refresh leaves a score that no longer equals its recorded wins |
| `Session.VoteUndoRoundTrip` | script.js:78-93 | Vote followed by undo restores cursor, history and scores exactly, so the same pair is shown again |
| `Session.UndoVoteRoundTrip` | script.js:78-93 | In a consistent state, undoing the last vote and casting it again restores the state |
| `Session.ChoicesAdvance` | script.js:136-137 | Each choice while a pair is showing advances the cursor by one and leaves the comparison list alone |
| `Session.FinishedShowsResults` | script.js:62-68 | Once the cursor has passed the last pair, the screen shows the result list: one line per key, line k ranked k, every key once |
| `Session.CompletesAfterAllPairs` | script.js:62-68 | After exactly n(n-1)/2 choices from a start, the cursor is at the end, the score keys are the selected names in selection order, and the result list has n lines |
| `Scenarios.IdentityDrawsKeepOrder` | script.js:54-59 | When every draw equals its loop index, the shuffle leaves the order unchanged |
| `Scenarios.ThreeItems` | script.js:96-99 | For selection A, B, C with votes A>B, A>C, B>C, the result list is "1. A", "2. B", "3. C" |
| `Scenarios.TwoItemsVoteAndUndo` | script.js:78-93 | For selection X, Y, choosing Y ranks "1. Y", "2. X"; undo restores zero scores, cursor 0 and the pair (X, Y) on screen |
| `Keys.DecodeAsWritten` | script.js:143-157 | The handler as written: arrow-left or `a` chooses left, arrow-right or `d` chooses right, and Backspace undoes, all in any case; restart is chosen by `r` in any case, or by a raw key name of exactly `"enter"` |
| `Keys.Decode` | script.js:143-157 | The corrected handler: each action is chosen by exactly its key names in any case (arrow-left or `a`, arrow-right or `d`, `r` or Enter, Backspace); every other key does nothing |
| `Keys.DecodeIgnoresCase` | script.js:143 | Decoding a key name gives the same action as decoding its lower-cased form |
| `Keys.AsWrittenAgreesElsewhere` | script.js:148 | The handler as written and the corrected one differ only on names that lower-case to `"enter"` without being `"enter"` |
| `Keys.EnterIgnoredAsWritten` | script.js:148 | As written, the Enter key (named `"Enter"`) does nothing; corrected, it restarts |
| `Keys.PressKey` | script.js:141-158 | A key press runs the decoded command and keeps the selection; any other key changes nothing; ArrowLeft or `a` in any case chooses the left item and ArrowRight or `d` the right one; `r` or Enter in any case restarts and Backspace undoes. It uses the corrected Enter test, so Enter restarts here although the handler as written ignores it |
| `Keys.PressKeyKeeps` | script.js:141-158 | A key press keeps the session well formed, consistent and exactly tallied, keeps the selection, and any other key changes nothing |

## Findings

| source | as written | input that shows it | evidently intended | confidence | as-written member | corrected member |
|---|---|---|---|---|---|---|
| script.js:148 | `key === "r" \|\| event.key === "enter"` compares the raw key name, while every other test compares the lower-cased `key` | pressing Enter: the browser reports `event.key` as `"Enter"`, which is not `"enter"`, so no branch matches and the handler does nothing | `key === "enter"`, so that Enter restarts like `r` | high; not executed | `Keys.DecodeAsWritten`, `Keys.EnterIgnoredAsWritten` | `Keys.Decode`, `Keys.DecodeIgnoresCase` |

## Left out

- Loading `characters.json` and `renderFilter` (script.js:17-22): network I/O and a function outside the core.
- Building the selection from checkboxes (script.js:25-26): `checked` and `startSortBtn` are defined outside the file. The selection is a parameter of `Session.Start`. A start with a new selection is a fresh `Start`, so a command run keeps one selection.
- All DOM writes: button labels, `style.display`, `innerHTML`, hover handlers (script.js:7-14, 71-74, 101-103, 108-112, 124-132). `Session.ShowNext` keeps only what they show: the current pair, whether undo is visible, or the result lines.
- The progress bar (script.js:118-121): floating-point rounding, and NaN for an empty list. The model keeps only `current <= |comparisons|`, which is part of `Session.Consistent`.
- `Math.random` (script.js:56): replaced by an oracle `draws` with `draws[i] <= i`. Uniformity of the shuffle is a probabilistic property and is not modelled.
- Keyboard handler (script.js:141-158): `preventDefault` on Backspace is dropped, because the model has no browser default action. The handler reaches four commands: left, right, restart and undo.
- Keys.Lower: lower-cases ASCII capitals only. Full Unicode `toLowerCase` is not modelled. A key name holding a non-ASCII letter whose lower case is an ASCII letter (the Kelvin sign, say) would be decoded differently, but no browser reports such a key name.
- Session.Vote: requires the winner's name to be a score key. The source would store NaN (`undefined + 1`) under a new key. `Session.RunKeepsConsistent` and `Session.Reachable` show this never happens from a start: in every reachable state, every compared or recorded name is a key.
- Session.Undo: requires the last winner's name to be a score key, for the same reason.
- Session.Choose, Session.Step and Session.Run: require the session to be well formed in that same sense, which holds in every reachable state.
- Ranking.Entries: assumes no name is a canonical array index such as `"7"`. `Object.entries` lists such keys first in numeric order, and the model keeps plain insertion order.
- Scores.InitScores and Ranking.Entries: assume no name is `"__proto__"`. `scores["__proto__"] = 0` (script.js:39) calls the prototype setter and creates no own key, so `Object.entries` (script.js:97) never lists that name. The model lists it like any other name.
- Pairs.AllPairsAreComparisons: does not state that each item appears in exactly n-1 pairs. Every pair is present exactly once, which implies it, but the counting step is not carried out.
