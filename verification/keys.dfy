/**
 The keyboard handler (script.js:141-158). The key name is lower-cased and
 matched against the arrow keys and the letters a, d and r, against Enter,
 and against Backspace; any other key does nothing. The handler as written
 tests Enter on the raw key name, which the browser reports as "Enter", so
 Enter never restarts. `Decode` is the handler with that test made on the
 lower-cased name like the others, and `PressKey` uses it.
 */
module Keys {
  import opened Wrappers
  import opened Items
  import opened Pairs
  import opened Shuffle
  import opened Session

  /** `toLowerCase` on one character of a key name: ASCII capitals become small letters. */
  function LowerChar(c: char): char
  {
    if 'A' <= c <= 'Z' then (c as int + 32) as char else c
  }

  /** `toLowerCase` on a key name. */
  function Lower(s: string): string
  {
    seq(|s|, k requires 0 <= k < |s| => LowerChar(s[k]))
  }

  /** Lower-casing twice is lower-casing once. */
  lemma LowerIdempotent(s: string)
    ensures Lower(Lower(s)) == Lower(s)
  {
  }

  /** What a key press asks for. */
  datatype KeyAction = PressLeft | PressRight | PressRestart | PressUndo

  /**
   The handler's tests as written: every test reads the lower-cased name
   except the Enter test, which compares the raw name with "enter".
   */
  function DecodeAsWritten(key: string): (r: Option<KeyAction>)
    ensures r == Some(PressLeft) <==> Lower(key) == "arrowleft" || Lower(key) == "a"
    ensures r == Some(PressRestart) <==>
      Lower(key) != "arrowleft" && Lower(key) != "a" && Lower(key) != "arrowright" && Lower(key) != "d"
      && (Lower(key) == "r" || key == "enter")
    ensures r == Some(PressRight) <==> Lower(key) == "arrowright" || Lower(key) == "d"
    ensures r == Some(PressUndo) <==> Lower(key) == "backspace"
  {
    var k := Lower(key);
    if k == "arrowleft" || k == "a" then Some(PressLeft)
    else if k == "arrowright" || k == "d" then Some(PressRight)
    else if k == "r" || key == "enter" then Some(PressRestart)
    else if k == "backspace" then Some(PressUndo)
    else None
  }

  /**
   The handler with the Enter test on the lower-cased name. Each action is
   chosen by exactly its key names, in any case; every other key does nothing.
   */
  function Decode(key: string): (r: Option<KeyAction>)
    ensures r == Some(PressLeft) <==> Lower(key) == "arrowleft" || Lower(key) == "a"
    ensures r == Some(PressRight) <==> Lower(key) == "arrowright" || Lower(key) == "d"
    ensures r == Some(PressRestart) <==> Lower(key) == "r" || Lower(key) == "enter"
    ensures r == Some(PressUndo) <==> Lower(key) == "backspace"
  {
    var k := Lower(key);
    if k == "arrowleft" || k == "a" then Some(PressLeft)
    else if k == "arrowright" || k == "d" then Some(PressRight)
    else if k == "r" || k == "enter" then Some(PressRestart)
    else if k == "backspace" then Some(PressUndo)
    else None
  }

  /** The corrected handler does not depend on the case of the key name. */
  lemma DecodeIgnoresCase(key: string)
    ensures Decode(key) == Decode(Lower(key))
  {
    LowerIdempotent(key);
  }

  /** The two handlers differ only on names that lower-case to "enter" without being "enter". */
  lemma AsWrittenAgreesElsewhere(key: string)
    ensures Lower(key) != "enter" || key == "enter" ==> DecodeAsWritten(key) == Decode(key)
    ensures DecodeAsWritten(key) != Decode(key) ==> Lower(key) == "enter" && key != "enter"
  {
    if key == "enter" {
      assert Lower(key) == "enter";
    }
  }

  /** The name of the Enter key, as the browser reports it, lower-cased. */
  lemma LowerEnter()
    ensures Lower("Enter") == "enter"
    ensures "Enter" != "enter"
  {
    assert "Enter"[0] != "enter"[0];
  }

  /**
   As written, pressing Enter (reported as "Enter") does nothing, because the
   raw name is compared with "enter"; the corrected handler restarts.
   */
  lemma EnterIgnoredAsWritten()
    ensures DecodeAsWritten("Enter") == None
    ensures Decode("Enter") == Some(PressRestart)
  {
    LowerEnter();
  }

  /** The command a key action triggers; a restart consumes the shuffle oracle. */
  function ActionCommand(a: KeyAction, draws: seq<nat>): Command
  {
    match a
    case PressLeft => ChooseLeft
    case PressRight => ChooseRight
    case PressRestart => Restart(draws)
    case PressUndo => UndoLast
  }

  /**
   One key press on the session: the decoded command, or no change for any
   other key. It decodes with the corrected `Decode`, so Enter restarts here
   although the handler as written ignores it.
   */
  function PressKey(st: State, key: string, draws: seq<nat>): (r: State)
    requires WellFormed(st)
    requires ValidDraws(draws, PairCount(|st.selection|))
    ensures r.selection == st.selection
    ensures Decode(key) == None ==> r == st
    ensures Lower(key) == "r" || Lower(key) == "enter" ==> r == Start(st.selection, draws)
    ensures Lower(key) == "arrowleft" || Lower(key) == "a" ==> r == Choose(st, Left)
    ensures Lower(key) == "arrowright" || Lower(key) == "d" ==> r == Choose(st, Right)
    ensures Lower(key) == "backspace" ==> r == Undo(st)
  {
    match Decode(key)
    case None => st
    case Some(PressLeft) => Choose(st, Left)
    case Some(PressRight) => Choose(st, Right)
    case Some(PressRestart) => Start(st.selection, draws)
    case Some(PressUndo) => Undo(st)
  }

  /**
   A key press keeps the session's invariants. No key reaches the refresh
   button, so a key press also keeps the exact tally.
   */
  lemma PressKeyKeeps(st: State, key: string, draws: seq<nat>)
    requires WellFormed(st)
    requires ValidDraws(draws, PairCount(|st.selection|))
    ensures WellFormed(PressKey(st, key, draws))
    ensures PressKey(st, key, draws).selection == st.selection
    ensures Consistent(st) ==> Consistent(PressKey(st, key, draws))
    ensures Tallied(st) ==> Tallied(PressKey(st, key, draws))
    ensures Decode(key) == None ==> PressKey(st, key, draws) == st
  {
    match Decode(key)
    case None =>
    case Some(a) =>
      StepKeepsWellFormed(st, ActionCommand(a, draws));
  }
}
