/** The Tkinter variant's `MainScreen`: the six-row key buffer, the `check_word` handler with its
    own counter policy, and the on-screen keyboard colours. Widget updates are left out; what a
    handler shows is returned as a value. */
module Tk {
  import opened Wrappers
  import opened Text
  import opened WordleRules
  import Classifier

  const WordLen := 5
  const MaxTries := 6

  /** Tile and key colours: `COLOR_BLANK`, `COLOR_INCORRECT`, `COLOR_HALF_CORRECT`, `COLOR_CORRECT`. */
  datatype Shade = Blank | Incorrect | HalfCorrect | Correct

  /** A handler that indexes `words[current_word]` once all six rows are used raises this; Tk
      reports the exception and keeps the screen as it was. */
  datatype Fault = IndexError

  /** The game fields of `MainScreen`: the (lower-case) answer, one typed row per try, the row in
      use, and the three letter sets behind the keyboard colours. */
  datatype Screen = Screen(
    answer: string,
    words: seq<string>,
    current: nat,
    correct: set<char>,
    halfCorrect: set<char>,
    incorrect: set<char>)

  predicate AllUpper(row: string)
  {
    forall k :: 0 <= k < |row| ==> IsUpperLetter(row[k])
  }

  /** The key buffer: six rows, a row index that at most runs one past the last row, and rows
      holding typed upper-case letters only. */
  predicate RowsWf(s: Screen)
  {
    && |s.words| == MaxTries
    && s.current <= MaxTries
    && forall r :: 0 <= r < |s.words| ==> AllUpper(s.words[r])
  }

  /** A well-formed buffer and an answer long enough to be indexed at every guess position. */
  predicate Wf(s: Screen)
  {
    RowsWf(s) && |s.answer| >= WordLen
  }

  /** `new_game`: a fresh answer, empty rows, the first row in use, no coloured keys. */
  function NewGame(answer: string): (s: Screen)
    ensures s.current == 0 && s.answer == Lower(answer) && |s.words| == MaxTries
    ensures forall r :: 0 <= r < |s.words| ==> s.words[r] == ""
    ensures |answer| >= WordLen ==> Wf(s)
    ensures forall key :: KeyShade(s, key) == Blank
  {
    Screen(Lower(answer), seq(MaxTries, _ => ""), 0, {}, {}, {})
  }

  /** `enter_letter`: the key is appended to the row in use when it is a block of
      `string.ascii_uppercase` (a single upper-case letter in practice); any other key does
      nothing, and is turned away before the row is looked up. */
  function EnterLetter(s: Screen, key: string): (r: Result<Screen, Fault>)
    requires RowsWf(s)
    ensures r.Failure? <==> s.current == MaxTries && IsSubstring(key, AsciiUppercase)
    ensures r.Success? ==> RowsWf(r.value) && (Wf(r.value) <==> Wf(s))
    ensures r.Success? ==> r.value == s.(words := r.value.words)
    ensures r.Success? ==> forall row :: 0 <= row < MaxTries && row != s.current ==> r.value.words[row] == s.words[row]
    ensures r.Success? && IsSubstring(key, AsciiUppercase) ==> r.value.words[s.current] == s.words[s.current] + key
    ensures |key| == 1 && IsUpperLetter(key[0]) ==> IsSubstring(key, AsciiUppercase)
    ensures !IsSubstring(key, AsciiUppercase) ==> r == Success(s)
  {
    UppercaseBlocks(key);
    if !IsSubstring(key, AsciiUppercase) then Success(s)
    else if s.current == |s.words| then Failure(IndexError)
    else Success(s.(words := s.words[s.current := s.words[s.current] + key]))
  }

  /** `remove_letter`: drops the last letter of the row in use, if there is one. */
  function RemoveLetter(s: Screen): (r: Result<Screen, Fault>)
    requires RowsWf(s)
    ensures r.Failure? <==> s.current == MaxTries
    ensures r.Success? ==> RowsWf(r.value) && (Wf(r.value) <==> Wf(s))
    ensures r.Success? ==> r.value == s.(words := r.value.words)
    ensures r.Success? ==> forall row :: 0 <= row < MaxTries && row != s.current ==> r.value.words[row] == s.words[row]
    ensures r.Success? && s.words[s.current] == "" ==> r.value == s
    ensures r.Success? && s.words[s.current] != "" ==>
              r.value.words[s.current] + [s.words[s.current][|s.words[s.current]| - 1]] == s.words[s.current]
  {
    if s.current == |s.words| then Failure(IndexError)
    else if s.words[s.current] != "" then
      var row := s.words[s.current];
      assert row[..|row| - 1] + [row[|row| - 1]] == row;
      Success(s.(words := s.words[s.current := row[..|row| - 1]]))
    else Success(s)
  }

  /** Backspace undoes a typed letter. */
  lemma RemoveUndoesEnter(s: Screen, c: char)
    requires RowsWf(s) && s.current < MaxTries && IsUpperLetter(c)
    ensures EnterLetter(s, [c]).Success?
    ensures RemoveLetter(EnterLetter(s, [c]).value) == Success(s)
  {
    var row := s.words[s.current];
    var s' := EnterLetter(s, [c]).value;
    assert s'.words[s.current] == row + [c];
    assert (row + [c])[..|row|] == row;
    assert s'.words[s.current := row] == s.words;
  }

  /** The guard of `check_word` with the length test it evidently intends: exactly five letters. */
  predicate Rejects(word: string, dictionary: set<string>)
  {
    |word| != WordLen || word !in dictionary || !IsAlpha(word)
  }

  /** The guard as written: only words shorter than five letters fail the length test. */
  predicate RejectsAsWritten(word: string, dictionary: set<string>)
  {
    |word| < WordLen || word !in dictionary || !IsAlpha(word)
  }

  /** Upper-case form of the letters of `word` whose verdict is `v`: what `check_word` adds to
      the letter set of that colour. */
  function LettersWith(word: string, verdicts: seq<Verdict>, v: Verdict): set<char>
    requires |verdicts| == |word|
  {
    set i | 0 <= i < |word| && verdicts[i] == v :: UpperChar(word[i])
  }

  function ShadeOf(v: Verdict): Shade
  {
    match v
    case Green => Correct
    case Yellow => HalfCorrect
    case Grey => Incorrect
  }

  /** What the handler leaves on screen after an accepted guess. */
  datatype Ending = Congratulate | Humiliate | TryAgain(left: int)

  /** The toast for a rejected word, or the row's tile colours and the ending shown. */
  datatype Shown = InvalidWordToast | Scored(colors: seq<Shade>, ending: Ending)

  datatype Checked = Checked(screen: Screen, shown: Shown)

  /** The tile colours of a row classified with `verdicts`. */
  function Tiles(verdicts: seq<Verdict>): seq<Shade>
    requires |verdicts| == WordLen
  {
    seq(WordLen, i requires 0 <= i < WordLen => ShadeOf(verdicts[i]))
  }

  /** Scores an accepted word: colours from the shared classifier, letter sets extended, the row
      counter moved on even for a winning guess, then the win test before the exhaustion test.
      The colours and the letter sets are those of the counting rule. */
  function Score(s: Screen, word: string): (c: Checked)
    requires Wf(s) && s.current < MaxTries && |word| == WordLen
    ensures var v := ExpectedVerdicts(word, s.answer);
            && c.shown.Scored?
            && c.shown.colors == Tiles(v)
            && c.screen == s.(correct := s.correct + LettersWith(word, v, Green),
                              halfCorrect := s.halfCorrect + LettersWith(word, v, Yellow),
                              incorrect := s.incorrect + LettersWith(word, v, Grey),
                              current := s.current + 1)
  {
    var v := Classifier.Compare(word, s.answer);
    var next := s.(
      correct := s.correct + LettersWith(word, v, Green),
      halfCorrect := s.halfCorrect + LettersWith(word, v, Yellow),
      incorrect := s.incorrect + LettersWith(word, v, Grey),
      current := s.current + 1);
    var ending :=
      if word == s.answer then Congratulate
      else if next.current >= MaxTries then Humiliate
      else TryAgain(MaxTries - next.current);
    Checked(next, Scored(Tiles(v), ending))
  }

  /** `check_word` (Enter): rejects a malformed or unlisted word with a toast and no change;
      otherwise scores the row. */
  function Check(s: Screen, dictionary: set<string>): (r: Result<Checked, Fault>)
    requires Wf(s)
    ensures r.Failure? <==> s.current == MaxTries
    ensures r.Success? ==> Wf(r.value.screen)
    ensures r.Success? && Rejects(Lower(s.words[s.current]), dictionary) ==> r.value == Checked(s, InvalidWordToast)
    ensures r.Success? && !Rejects(Lower(s.words[s.current]), dictionary) ==>
              var word := Lower(s.words[s.current]);
              var v := ExpectedVerdicts(word, s.answer);
              var next := r.value.screen;
              && next.current == s.current + 1
              && next.answer == s.answer && next.words == s.words
              && next.correct == s.correct + LettersWith(word, v, Green)
              && next.halfCorrect == s.halfCorrect + LettersWith(word, v, Yellow)
              && next.incorrect == s.incorrect + LettersWith(word, v, Grey)
              && r.value.shown.Scored?
              && |r.value.shown.colors| == WordLen
              && (forall i :: 0 <= i < WordLen ==> r.value.shown.colors[i] == ShadeOf(v[i]))
              && (forall i :: 0 <= i < WordLen ==> (r.value.shown.colors[i] == Correct <==> word[i] == s.answer[i]))
              && (r.value.shown.ending == Congratulate <==> word == s.answer)
              && (r.value.shown.ending == Humiliate <==> word != s.answer && next.current == MaxTries)
              && (r.value.shown.ending.TryAgain? ==> r.value.shown.ending.left == MaxTries - next.current > 0)
  {
    if s.current == |s.words| then Failure(IndexError)
    else
      var word := Lower(s.words[s.current]);
      if Rejects(word, dictionary) then Success(Checked(s, InvalidWordToast))
      else Success(Score(s, word))
  }

  /** `check_word` with the guard as written: a listed word longer than five letters gets past
      the guard, and classifying it reads a sixth slot of the five-slot colour list. */
  function CheckAsWritten(s: Screen, dictionary: set<string>): (r: Result<Checked, Fault>)
    requires Wf(s)
    ensures r.Failure? <==>
              s.current == MaxTries
              || (!RejectsAsWritten(Lower(s.words[s.current]), dictionary) && |s.words[s.current]| > WordLen)
  {
    if s.current == |s.words| then Failure(IndexError)
    else
      var word := Lower(s.words[s.current]);
      if RejectsAsWritten(word, dictionary) then Success(Checked(s, InvalidWordToast))
      else if |word| > WordLen then Failure(IndexError)
      else Success(Score(s, word))
  }

  /** Whenever the handler as written does not raise, it does what the corrected handler does, so
      every property of `Check` carries over to the program as written on those screens. */
  lemma AsWrittenAgreesWhenItSucceeds(s: Screen, dictionary: set<string>)
    requires Wf(s) && CheckAsWritten(s, dictionary).Success?
    ensures CheckAsWritten(s, dictionary) == Check(s, dictionary)
  {
  }

  /** A six-letter listed word, typed on the first row, crashes the handler as written, while the
      intended guard turns it away with the toast. */
  lemma LongListedWordCrashes()
    ensures var s := NewGame("tango").(words := ["TANGOS", "", "", "", "", ""]);
            && Wf(s)
            && CheckAsWritten(s, {"tango", "tangos"}) == Failure(IndexError)
            && Check(s, {"tango", "tangos"}) == Success(Checked(s, InvalidWordToast))
  {
    var s := NewGame("tango").(words := ["TANGOS", "", "", "", "", ""]);
    assert Lower("TANGOS") == "tangos";
    assert AllUpper(s.words[0]);
    assert Wf(s);
  }

  /** On a dictionary of five-letter words the two guards agree, which is why the shipped word
      list hides the difference. */
  lemma GuardsAgreeOnFiveLetterWords(word: string, dictionary: set<string>)
    requires forall w :: w in dictionary ==> |w| == WordLen
    ensures Rejects(word, dictionary) <==> RejectsAsWritten(word, dictionary)
  {
  }

  /** `update_keyboard`: a key takes the colour of the first set holding it, in the order
      correct, half-correct, incorrect; otherwise it stays blank. */
  function KeyShade(s: Screen, key: char): (shade: Shade)
    ensures shade == Correct <==> key in s.correct
    ensures shade == HalfCorrect <==> key !in s.correct && key in s.halfCorrect
    ensures shade == Incorrect <==> key !in s.correct && key !in s.halfCorrect && key in s.incorrect
  {
    if key in s.correct then Correct
    else if key in s.halfCorrect then HalfCorrect
    else if key in s.incorrect then Incorrect
    else Blank
  }

  function Rank(shade: Shade): nat
  {
    match shade
    case Blank => 0
    case Incorrect => 1
    case HalfCorrect => 2
    case Correct => 3
  }

  /** Because the letter sets only grow, a key's colour never moves down the priority order
      during a game. */
  lemma KeyShadeNeverFades(s: Screen, dictionary: set<string>, key: char)
    requires Wf(s)
    requires Check(s, dictionary).Success?
    ensures Rank(KeyShade(Check(s, dictionary).value.screen, key)) >= Rank(KeyShade(s, key))
  {
  }
}
