# Wordle feedback and round logic, modelled in Dafny

The repository is one Wordle game written three times: a terminal program
(`wordle_terminal.py`), a Streamlit page (`wordle_game.py`) and a Tkinter window
(`wordle_tkinter.py`). This project models the logic they share and the places where they
differ:

- **The two-pass classifier `compare`** (module `Classifier`), used by all three variants.
  Pass 1 marks exact matches green and consumes their slots in a copy of the target (the
  pool). Pass 2 marks each remaining letter yellow if it is still in the pool, consuming the
  first such slot, and grey otherwise. The model keeps the source's shape: an output list of
  optional verdicts, where `None` stands for the source's empty string, and a pool of
  `Option<char>`. It is proved equal to an independent counting rule
  (`WordleRules.ExpectedVerdicts`). That rule says a non-matching letter is yellow while the
  earlier non-matching occurrences of the same letter have not used up the target's unmatched
  copies of it.
- **The terminal and Streamlit round controller `check_word`** (module `Round`): a step
  function over `InProgress(attempts) | Won | Quit | Exhausted`, a `Play` fold over the input
  lines, and how each variant leaves the function at the end.
- **The Tkinter screen** (module `Tk`): the six-row key buffer (`enter_letter`,
  `remove_letter`), `new_game`, the `check_word` handler with its own counter policy, and the
  keyboard colour priority.
- The terminal colour wrappers become abstract styles (module `Render`).

The variants are kept apart where they differ:

- On the quit token `no`, the terminal variant calls `exit()` and the Streamlit variant
  returns `False`. Tkinter has no quit token.
- On exhaustion, both the terminal and the Streamlit variant call `exit()`.
- Tkinter's length test is `len(word) < 5`, where the other variants reject any length other
  than 5.
- Tkinter moves its row counter on a winning guess too. The other variants do not count a
  win as an attempt.
- The terminal and Streamlit loops print "Attempts left: 0" on the sixth miss, just before the
  max-attempts line. Tkinter shows no attempts-left message on its last row.

The target word and the word list are parameters. In the source they come from
`random.choice` and from reading `wordle_ord.txt`.

Pass 1 of `compare` indexes the target only at guess positions, so `Classifier.Compare` needs
`|guess| <= |target|`. A longer guess raises IndexError at wordle_terminal.py:28. Pass 2's
`letter in remaining_letters` and `.index(letter)` scan the whole pool, whatever its length.

## Model

| member | source | states |
|---|---|---|
| Classifier.Compare | wordle_terminal.py:22-41 | one verdict per guess position in guess order, equal to the counting rule for every guess no longer than the target |
| Classifier.LetterCountBound | wordle_terminal.py:24-38 | for every letter, the green and yellow verdicts on guess positions holding it number the smaller of its counts in guess and target, so never more than the target holds |
| Classifier.GreenExactlyAtMatches | wordle_terminal.py:24-33 | a position is green exactly when guess and target agree there, so pass 2 never reclassifies a green position |
| Classifier.ExactPass | wordle_terminal.py:27-30 | pass 1 from a given position keeps one output slot per guess position and one pool slot per target letter; which slots it marks and consumes is stated by `Classifier.ExactPassMarksMatches` |
| Classifier.PresencePass | wordle_terminal.py:33-40 | pass 2 from a given position keeps one output slot per guess position; the verdicts it writes are stated by `Classifier.PresencePassFollowsRule` |
| Classifier.FirstPassReadiesSecond | wordle_terminal.py:24-30 | after pass 1 the output holds green exactly at the matches and the pool holds, for every letter, its unmatched target copies: the state pass 2 starts from |
| Classifier.ExactPassMarksMatches | wordle_terminal.py:27-30 | pass 1 marks exactly the positions with `guess[i] == target[i]` green and nulls exactly those pool slots, leaving every other slot as the target letter |
| Classifier.PresencePassFollowsRule | wordle_terminal.py:33-40 | pass 2 skips green positions and makes every other one yellow or grey as the rule demands; throughout, the pool holds for each letter its unmatched target copies minus the non-matching guess occurrences already seen |
| Classifier.TwoPassesFollowRule | wordle_game.py:33-53 | the Streamlit copy of `compare` runs the same two passes; after both, every output slot is filled with the rule's verdict |
| Classifier.FirstPoolHoldsSpares | wordle_game.py:35-41 | after pass 1 the pool holds, for every letter, exactly its target copies not consumed by an exact match |
| Classifier.NoFalsePresent | wordle_terminal.py:36-38 | a yellow position is not a positional match, and some target position holding its letter was not consumed by an exact match |
| Classifier.FirstUnplacedIsYellow | wordle_game.py:47-49 | a non-matching letter that still has an unmatched target copy, with no earlier non-matching occurrence of that letter, is yellow |
| Classifier.AbsentLetterIsGrey | wordle_terminal.py:39-40 | a letter the target does not contain is grey |
| Classifier.SelfCompareAllGreen | wordle_terminal.py:27-30 | comparing a word with itself gives all green |
| WordleRules.CreditsAreCommonLetters | wordle_tkinter.py:304-325 | under the counting rule that the Tkinter classification also follows, each letter is credited min(count in guess, count in target) times |
| WordleRules.SpareWitness | wordle_terminal.py:24-30 | a letter has an unmatched copy exactly when some target position holds it and is not an exact match |
| Sequences.IndexOf | wordle_game.py:47-49 | `letter in remaining_letters` fails exactly when the letter is absent; otherwise `index` returns the first slot holding it |
| Render.Paint | wordle_terminal.py:10-19 | one cell per guess letter, in guess order, each holding its letter and a style from which its verdict reads back |
| Render.PaintRoundTrip | wordle_terminal.py:10-19 | the three colour wrappers lose nothing: the letters and the verdicts can be read back from the painted output |
| Render.PrintedCompare | wordle_terminal.py:41 | the joined output is the guess's letters in order, each in the style of its classifier verdict |
| Round.Step | wordle_terminal.py:48-64 | quit iff the lower-cased line is `no`, at no attempt and printing nothing; an invalid line (length not 5, not alphabetic, unlisted) and only that leaves the state unchanged and prints the invalid-word line; won iff a valid line equals the target, printing the congrats line with the target; a miss moves to the next attempt count or to exhausted at six and prints exactly the guess's letters in the classifier's verdict styles, then `6 - attempts` attempts left (never negative), plus, exactly when it exhausts the round, a third line: the max-attempts line with the target |
| Round.Play | wordle_terminal.py:44-65 | the loop keeps the counter below six and stops reading once the round is over |
| Round.AttemptsCountMisses | wordle_game.py:60-76 | without a quit or a win, the counter equals the number of valid misses, and the round is exhausted once there are six |
| Round.PlaySplit | wordle_terminal.py:48-49 | the loop reads its lines one at a time: playing two batches of lines in turn is playing them together |
| Round.WinBeforeExhaustion | wordle_terminal.py:55-57 | a winning line ends the round as won whenever it comes before the sixth miss, and later lines are ignored |
| Round.QuitEndsRound | wordle_terminal.py:50-51 | the quit token ends the round at any point before the sixth miss |
| Round.SixMissesExhaust | wordle_terminal.py:64-65 | six valid misses with no quit or win among them end the round as exhausted, whatever follows |
| Round.EndingsAgreeOnlyOnExhaustion | wordle_terminal.py:51-65 | the terminal variant (which always calls `exit()`) and the Streamlit variant leave a finished round the same way exactly when the attempts ran out |
| Round.StreamlitEnding | wordle_game.py:62-76 | the Streamlit variant returns on a win (`True`) or a quit (`False`) but calls `exit()` on exhaustion |
| Tk.NewGame | wordle_tkinter.py:44-50 | a new game has the lower-cased answer, six empty rows, row 0 in use and every key blank |
| Tk.EnterLetter | wordle_tkinter.py:349-355 | a key that is a block of `ascii_uppercase` (every single upper-case letter is one) is appended to the row in use; any other key changes nothing and never raises; the row counter, the other rows and the letter sets are unchanged; IndexError is raised exactly for such a block once all six rows are used |
| Tk.RemoveLetter | wordle_tkinter.py:342-347 | drops the last letter of the row in use if there is one, and nothing else changes; raises IndexError once all six rows are used |
| Tk.RemoveUndoesEnter | wordle_tkinter.py:342-355 | backspace after typing an upper-case letter restores the screen |
| Tk.Score | wordle_tkinter.py:304-340 | an accepted row is coloured tile by tile with the counting rule's verdicts, each letter (upper-cased) is added to exactly the set of its verdict's colour, and the row counter moves on by one |
| Tk.Check | wordle_tkinter.py:297-340 | a rejected word changes nothing; an accepted word moves the row counter by one even when it wins; its tiles are the counting rule's colours, so correct exactly at positional matches; each letter set grows by exactly the upper-cased letters of its colour; it congratulates iff the word is the answer, humiliates iff it misses on the sixth row, and otherwise reports `6 - current_word` tries left, which is positive |
| Tk.CheckAsWritten | wordle_tkinter.py:300-302 | with the guard as written, the handler raises IndexError exactly for a listed alphabetic word longer than five letters (or once all rows are used) |
| Tk.AsWrittenAgreesWhenItSucceeds | wordle_tkinter.py:297-340 | whenever the handler with the guard as written does not raise, its result is that of the corrected handler, so the properties of `Tk.Check` hold of it there |
| Tk.LongListedWordCrashes | wordle_tkinter.py:300-308 | the row `TANGOS`, with `tangos` listed, crashes the handler as written and is turned away by the intended guard |
| Tk.GuardsAgreeOnFiveLetterWords | wordle_tkinter.py:28-29 | when every listed word has five letters, the written and the intended guards agree |
| Tk.KeyShade | wordle_tkinter.py:268-277 | a key is coloured correct if in the correct set, else half-correct if in that set, else incorrect if in that set, else blank |
| Tk.KeyShadeNeverFades | wordle_tkinter.py:311-325 | the letter sets only grow, so a key's colour never moves down the priority order during a game |
| Scenarios.TangoAgainstTango | test_wordle_terminal_compare.py:20 | `tango` against `tango` is all green |
| Scenarios.NotagAgainstTango | test_wordle_terminal_compare.py:23 | `notag` against `tango` is all yellow |
| Scenarios.QwerkAgainstTango | test_wordle_terminal_compare.py:27 | `qwerk` against `tango` is all grey |
| Scenarios.MangoAgainstTango | test_wordle_terminal_compare.py:30 | `mango` against `tango` is grey then four greens |
| Scenarios.SpeedAgainstAbide | wordle_terminal.py:36-40 | with one `e` in the target, the first misplaced `e` is yellow and the second grey |
| Scenarios.InvalidLinesThenWin | test_wordle_terminal.py:248-249 | `tan`, `kalak` and `123` are rejected at no cost, then `tango` wins |
| Scenarios.SixWrongWordsExhaust | test_wordle_terminal.py:277-278 | six listed wrong words exhaust the round |
| Scenarios.UpperCaseQuit | wordle_terminal.py:49-51 | `NO` is lower-cased to the quit token and ends the round after one miss |
| Scenarios.TkSixthTryWins | wordle_tkinter.py:333-337 | in Tkinter a correct guess on the sixth row wins, with the counter at six |

## Left out

- File loading of `wordle_ord.txt` is not modelled. The word list is a parameter: a sequence
  for the terminal and Streamlit variants, a set for Tkinter.
- `random.choice` is not modelled. The target or answer is a parameter.
- `input`, `print`, `exit()` and the `main` yes/no menu loop are not modelled. Input lines are
  a sequence, printed lines are `Round.Message` values, and process exit is `Round.Ending`.
- Streamlit page text, colorama escape codes and Tkinter widgets are not modelled. This covers
  layout, label updates, the toast timer, the game-over dialog and fullscreen. Colours are
  abstract (`Render.Style`, `Tk.Shade`).
- Case mapping and `isalpha` are modelled for ASCII only. Python's Unicode letter classes and
  case mapping (for instance for å, ä, ö) are not modelled.
- Tk.EnterLetter: the key argument is taken as already resolved. The `key or
  event.keysym.upper()` choice between a button's key and a keyboard event's key symbol is not
  modelled.
- Tk.CheckAsWritten: does not model the letters added to the letter sets before the IndexError.
  Pass 1 adds to the correct set. When the answer is also longer than five letters, pass 1 can
  finish, and pass 2 adds to the half-correct and incorrect sets (wordle_tkinter.py:321, 325)
  before `colors[5]` raises at wordle_tkinter.py:316. Tk keeps all those additions, and the
  model keeps the screen unchanged.
- Round.Step: a target shorter than five letters is excluded. Every call site draws the target
  from the word list without a length check (wordle_terminal.py:45), and with a shorter target
  the first valid miss raises IndexError at wordle_terminal.py:28 (wordle_game.py:39). The
  model assumes a list of five-letter words; Round.Play carries the same requirement.
- Tk.Check: an answer shorter than five letters is excluded by `Tk.Wf`. The answer is drawn
  unchecked from the list (wordle_tkinter.py:45), and classifying an accepted row against a
  shorter answer raises IndexError at wordle_tkinter.py:309.
- Classifier.Compare: a guess longer than the target is excluded. It raises IndexError at
  wordle_terminal.py:28. The terminal and Streamlit guards admit only five-letter guesses;
  the Tkinter guard as written admits longer ones, which is the finding below.
- Classifier.ExactPass, Classifier.PresencePass: their own contracts state only the shape of
  the lists they return. What they mark is stated by lemmas about them, because stating it on
  the recursive functions themselves makes every proof that uses them too costly.
- Round.Play: a line the player has not typed yet is modelled as the end of the input
  sequence. The source blocks on `input()` instead.

## Findings

| source | as written | input that shows it | evidently intended | confidence | as-written member | corrected member |
|---|---|---|---|---|---|---|
| wordle_tkinter.py:300 | `len(word) < WORD_LEN` lets a listed word longer than five letters through the guard, and classifying it indexes `self.answer[5]` or the five-slot `colors` list, raising IndexError | a word list containing `tangos`, and the row `TANGOS` typed and entered | `len(word) != WORD_LEN`, as the toast "Please enter a 5 letter valid word" and the other two variants say | medium: the shipped list may hold only five-letter words (not executed) | Tk.CheckAsWritten, Tk.LongListedWordCrashes | Tk.Check (guard Tk.Rejects) |
