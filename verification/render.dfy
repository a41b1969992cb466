/** The terminal and Streamlit variants' colour wrappers (`correct_place`, `correct_letter`,
    `incorrect_letter`), kept as abstract styles: `compare` there returns the guess with every
    letter wrapped in the style of its verdict. */
module Render {
  import opened WordleRules
  import Classifier

  /** Green background, yellow background, dimmed text. */
  datatype Style = BackGreen | BackYellow | Dim

  /** One wrapped letter of the printed feedback. */
  datatype Cell = Cell(style: Style, letter: char)

  function StyleOf(v: Verdict): Style
  {
    match v
    case Green => BackGreen
    case Yellow => BackYellow
    case Grey => Dim
  }

  /** Reads a verdict back from its style. */
  function VerdictOf(s: Style): Verdict
  {
    match s
    case BackGreen => Green
    case BackYellow => Yellow
    case Dim => Grey
  }

  /** Wraps each letter in the style of its verdict, in guess order. */
  function Paint(guess: string, verdicts: seq<Verdict>): (cells: seq<Cell>)
    requires |guess| == |verdicts|
    ensures |cells| == |guess|
    ensures forall i :: 0 <= i < |cells| ==> cells[i].letter == guess[i] && VerdictOf(cells[i].style) == verdicts[i]
  {
    seq(|guess|, i requires 0 <= i < |guess| => Cell(StyleOf(verdicts[i]), guess[i]))
  }

  function Letters(cells: seq<Cell>): string
  {
    seq(|cells|, i requires 0 <= i < |cells| => cells[i].letter)
  }

  function Verdicts(cells: seq<Cell>): seq<Verdict>
  {
    seq(|cells|, i requires 0 <= i < |cells| => VerdictOf(cells[i].style))
  }

  /** Painting loses nothing: the letters and the verdicts can both be read back. */
  lemma PaintRoundTrip(guess: string, verdicts: seq<Verdict>)
    requires |guess| == |verdicts|
    ensures Letters(Paint(guess, verdicts)) == guess
    ensures Verdicts(Paint(guess, verdicts)) == verdicts
  {
    forall i | 0 <= i < |guess|
      ensures VerdictOf(StyleOf(verdicts[i])) == verdicts[i]
    {
    }
  }

  /** The printed feedback of the terminal and Streamlit `compare`: the guess's letters in order,
      each in the style of the verdict the classifier gives it. */
  function PrintedCompare(guess: string, target: string): (cells: seq<Cell>)
    requires |guess| <= |target|
    ensures Letters(cells) == guess
    ensures Verdicts(cells) == Classifier.Compare(guess, target)
  {
    PaintRoundTrip(guess, Classifier.Compare(guess, target));
    Paint(guess, Classifier.Compare(guess, target))
  }
}
