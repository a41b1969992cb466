/** Concrete games: the examples the repository's tests exercise, plus a repeated-letter case. */
module Scenarios {
  import opened WordleRules
  import opened Classifier
  import Round
  import Tk
  import Text

  /** An exact guess is all green. */
  lemma TangoAgainstTango(guess: string, target: string)
    requires guess == "tango" && target == "tango"
    ensures Compare(guess, target) == [Green, Green, Green, Green, Green]
  {
  }

  /** An anagram with no letter in place is all yellow. */
  lemma NotagAgainstTango(guess: string, target: string)
    requires guess == "notag" && target == "tango"
    ensures Compare(guess, target) == [Yellow, Yellow, Yellow, Yellow, Yellow]
  {
    var g, t := guess, target;
    var r := Compare(g, t);
    assert r[0] == Yellow by { FirstUnplacedIsYellow(g, t, 0, 2); }
    assert r[1] == Yellow by { FirstUnplacedIsYellow(g, t, 1, 4); }
    assert r[2] == Yellow by { FirstUnplacedIsYellow(g, t, 2, 0); }
    assert r[3] == Yellow by { FirstUnplacedIsYellow(g, t, 3, 1); }
    assert r[4] == Yellow by { FirstUnplacedIsYellow(g, t, 4, 3); }
  }

  lemma MangoAgainstTango(guess: string, target: string)
    requires guess == "mango" && target == "tango"
    ensures Compare(guess, target) == [Grey, Green, Green, Green, Green]
  {
    AbsentLetterIsGrey(guess, target, 0);
  }

  lemma QwerkAgainstTango(guess: string, target: string)
    requires guess == "qwerk" && target == "tango"
    ensures Compare(guess, target) == [Grey, Grey, Grey, Grey, Grey]
  {
    var g, t := guess, target;
    var r := Compare(g, t);
    assert r[0] == Grey by { AbsentLetterIsGrey(g, t, 0); }
    assert r[1] == Grey by { AbsentLetterIsGrey(g, t, 1); }
    assert r[2] == Grey by { AbsentLetterIsGrey(g, t, 2); }
    assert r[3] == Grey by { AbsentLetterIsGrey(g, t, 3); }
    assert r[4] == Grey by { AbsentLetterIsGrey(g, t, 4); }
  }

  /** The target holds one `e`: the first misplaced `e` takes it and the second is grey. */
  lemma SpeedAgainstAbide(guess: string, target: string)
    requires guess == "speed" && target == "abide"
    ensures Compare(guess, target) == [Grey, Grey, Yellow, Grey, Yellow]
  {
    var g, t := guess, target;
    var r := Compare(g, t);
    assert r[0] == Grey by { AbsentLetterIsGrey(g, t, 0); }
    assert r[1] == Grey by { AbsentLetterIsGrey(g, t, 1); }
    assert r[2] == Yellow by { FirstUnplacedIsYellow(g, t, 2, 4); }
    assert r[3] == Grey by { SecondEIsSpent(g, t); }
    assert r[4] == Yellow by { FirstUnplacedIsYellow(g, t, 4, 3); }
  }

  /** Before the second `e` of "speed", one misplaced `e` has already been seen, and "abide"
      has only the one unmatched `e` to give. */
  lemma SecondEIsSpent(guess: string, target: string)
    requires guess == "speed" && target == "abide"
    ensures Unplaced(guess, target, 3, 'e') == Spare(guess, target, 5, 'e') == 1
  {
    assert Unplaced("speed", "abide", 3, 'e') == 1;
    assert Spare("speed", "abide", 5, 'e') == 1;
  }

  /** Three rejected lines (too short, unlisted, not letters) cost nothing; the target then wins. */
  lemma InvalidLinesThenWin()
    ensures Round.Play(Round.InProgress(0), ["tan", "kalak", "123", "tango"], ["tango", "mango"], "tango") == Round.Won
  {
    var words := ["tango", "mango"];
    assert Text.Lower("tan") == "tan";
    assert Text.Lower("kalak") == "kalak";
    assert Text.Lower("123") == "123";
    assert Text.Lower("tango") == "tango";
    assert !Text.IsAlpha("123") by { assert !Text.IsLetter("123"[0]); }
    var xs := ["tan", "kalak", "123"];
    assert Round.Misses(xs, words, "tango") == 0 by {
      assert xs[1..] == ["kalak", "123"];
      assert xs[1..][1..] == ["123"];
    }
    Round.WinBeforeExhaustion(0, xs, "tango", [], words, "tango");
    assert xs + ["tango"] + [] == ["tan", "kalak", "123", "tango"];
  }

  /** Six listed wrong words exhaust the round. */
  lemma SixWrongWordsExhaust()
    ensures Round.Play(Round.InProgress(0), ["bread", "crane", "drake", "flame", "grape", "house"],
                       ["tango", "bread", "crane", "drake", "flame", "grape", "house"], "tango") == Round.Exhausted
  {
    var words := ["tango", "bread", "crane", "drake", "flame", "grape", "house"];
    var xs := ["bread", "crane", "drake", "flame", "grape", "house"];
    forall k | 0 <= k < |xs|
      ensures Round.IsMiss(xs[k], words, "tango")
    {
      Text.LowerFixesLowerCase(xs[k]);
    }
    Round.AllMissesCount(xs, words, "tango");
    Round.SixMissesExhaust(xs, [], words, "tango");
    assert xs + [] == xs;
  }

  /** The quit token is recognised in any case and ends the round before its first miss is
      counted against it. */
  lemma UpperCaseQuit()
    ensures Round.Play(Round.InProgress(0), ["mango", "NO", "tango"], ["tango", "mango"], "tango") == Round.Quit
  {
    var words := ["tango", "mango"];
    assert Text.Lower("mango") == "mango";
    assert Text.Lower("NO") == "no";
    assert Text.IsAlpha("mango");
    assert Round.Misses(["mango"], words, "tango") == 1;
    Round.QuitEndsRound(0, ["mango"], "NO", ["tango"], words, "tango");
    assert ["mango"] + ["NO"] + ["tango"] == ["mango", "NO", "tango"];
  }

  /** In the Tkinter variant the sixth row can still win: the counter moves to six, and the win
      test, made first, congratulates. */
  lemma TkSixthTryWins()
    ensures var s := Tk.NewGame("tango").(words := ["CRANE", "BREAD", "DRAKE", "FLAME", "GRAPE", "TANGO"], current := 5);
            && Tk.Wf(s)
            && Tk.Check(s, {"tango", "crane"}).Success?
            && Tk.Check(s, {"tango", "crane"}).value.shown.Scored?
            && Tk.Check(s, {"tango", "crane"}).value.shown.ending == Tk.Congratulate
            && Tk.Check(s, {"tango", "crane"}).value.screen.current == 6
  {
    var s := Tk.NewGame("tango").(words := ["CRANE", "BREAD", "DRAKE", "FLAME", "GRAPE", "TANGO"], current := 5);
    assert Text.Lower("TANGO") == "tango";
    assert Text.Lower("tango") == "tango";
    assert forall r :: 0 <= r < |s.words| ==> Tk.AllUpper(s.words[r]);
    assert Text.IsAlpha("tango");
  }
}
