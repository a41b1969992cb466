/** The round controller `check_word` of the terminal and Streamlit variants. Both run the same
    loop with the same branches in the same order; they differ only in how a finished round leaves
    the function (see `TerminalEnding` and `StreamlitEnding`). The secret word and the word list,
    drawn and loaded by the source, are parameters here. */
module Round {
  import opened Text
  import Classifier
  import Render

  const WordLen := 5
  const MaxAttempts := 6
  /** Typed (in any case) instead of a guess, ends the round. */
  const QuitToken := "no"

  datatype Round = InProgress(attempts: nat) | Won | Quit | Exhausted

  /** The attempt counter stays below the maximum while the round runs. */
  predicate Valid(r: Round)
  {
    r.InProgress? ==> r.attempts < MaxAttempts
  }

  /** One line the loop prints. */
  datatype Message =
    | InvalidWord
    | Congrats(word: string)
    | Feedback(cells: seq<Render.Cell>)
    | AttemptsLeft(left: int)
    | MaxAttemptsReached(word: string)

  /** The state after one pass of the loop and what that pass printed. */
  datatype Turn = Turn(round: Round, printed: seq<Message>)

  /** A normalized guess the loop accepts: five letters and listed. */
  predicate Admissible(guess: string, words: seq<string>)
  {
    |guess| == WordLen && IsAlpha(guess) && guess in words
  }

  predicate IsQuit(raw: string) { Lower(raw) == QuitToken }

  predicate IsHit(raw: string, words: seq<string>, target: string)
  {
    !IsQuit(raw) && Admissible(Lower(raw), words) && Lower(raw) == target
  }

  predicate IsMiss(raw: string, words: seq<string>, target: string)
  {
    !IsQuit(raw) && Admissible(Lower(raw), words) && Lower(raw) != target
  }

  /** An input that ends the round whatever the attempt count. */
  predicate Decisive(raw: string, words: seq<string>, target: string)
  {
    IsQuit(raw) || IsHit(raw, words, target)
  }

  /** The round after `n` misses and nothing decisive. */
  function AfterMisses(n: nat): (r: Round)
    ensures Valid(r)
  {
    if n < MaxAttempts then InProgress(n) else Exhausted
  }

  /** One pass of the loop on the raw input line `raw`. The quit token is tested first and costs
      no attempt; an invalid guess changes nothing; a hit wins at once; a miss prints the
      feedback and the attempts left (zero on the last one) and uses one attempt. */
  function Step(r: Round, raw: string, words: seq<string>, target: string): (t: Turn)
    requires r.InProgress? && Valid(r) && |target| >= WordLen
    ensures Valid(t.round)
    ensures t.round == Quit <==> IsQuit(raw)
    ensures t.round == Won <==> IsHit(raw, words, target)
    ensures t.round == r <==> !IsQuit(raw) && !Admissible(Lower(raw), words)
    ensures IsMiss(raw, words, target) <==> t.round == AfterMisses(r.attempts + 1)
    ensures forall m :: m in t.printed && m.AttemptsLeft? ==> m.left == MaxAttempts - r.attempts - 1 >= 0
    ensures t.round == Quit ==> t.printed == []
    ensures t.round == r ==> t.printed == [InvalidWord]
    ensures t.round == Won ==> t.printed == [Congrats(target)]
    ensures IsMiss(raw, words, target) ==>
              && |t.printed| >= 2
              && t.printed[0].Feedback?
              && Render.Letters(t.printed[0].cells) == Lower(raw)
              && Render.Verdicts(t.printed[0].cells) == Classifier.Compare(Lower(raw), target)
              && t.printed[1] == AttemptsLeft(MaxAttempts - r.attempts - 1)
              && |t.printed| == (if t.round == Exhausted then 3 else 2)
              && (t.round == Exhausted <==> t.printed[|t.printed| - 1] == MaxAttemptsReached(target))
  {
    var guess := Lower(raw);
    if guess == QuitToken then Turn(Quit, [])
    else if !Admissible(guess, words) then Turn(r, [InvalidWord])
    else if guess == target then Turn(Won, [Congrats(target)])
    else
      var n := r.attempts + 1;
      var shown := [Feedback(Render.PrintedCompare(guess, target)), AttemptsLeft(MaxAttempts - n)];
      if n < MaxAttempts then Turn(InProgress(n), shown)
      else Turn(Exhausted, shown + [MaxAttemptsReached(target)])
  }

  /** The loop fed a sequence of input lines; it stops reading once the round is over. Lines left
      over while the round still runs stand for a player who has not typed yet. */
  function Play(r: Round, inputs: seq<string>, words: seq<string>, target: string): (end: Round)
    requires Valid(r) && |target| >= WordLen
    ensures Valid(end)
    ensures !r.InProgress? ==> end == r
    decreases |inputs|
  {
    if !r.InProgress? || |inputs| == 0 then r
    else Play(Step(r, inputs[0], words, target).round, inputs[1..], words, target)
  }

  /** Number of valid, non-winning guesses among the inputs. */
  function Misses(inputs: seq<string>, words: seq<string>, target: string): nat
  {
    if |inputs| == 0 then 0
    else (if IsMiss(inputs[0], words, target) then 1 else 0) + Misses(inputs[1..], words, target)
  }

  /** When every line is a miss, each one counts. */
  lemma {:induction false} AllMissesCount(inputs: seq<string>, words: seq<string>, target: string)
    requires forall k :: 0 <= k < |inputs| ==> IsMiss(inputs[k], words, target)
    ensures Misses(inputs, words, target) == |inputs|
  {
    if |inputs| > 0 {
      assert forall k :: 0 <= k < |inputs[1..]| ==> inputs[1..][k] == inputs[k + 1];
      AllMissesCount(inputs[1..], words, target);
    }
  }

  /** Playing a concatenation is playing its parts one after the other. */
  lemma {:induction false} PlaySplit(r: Round, xs: seq<string>, ys: seq<string>, words: seq<string>, target: string)
    requires Valid(r) && |target| >= WordLen
    ensures Play(r, xs + ys, words, target) == Play(Play(r, xs, words, target), ys, words, target)
    decreases |xs|
  {
    if r.InProgress? && |xs| > 0 {
      assert (xs + ys)[1..] == xs[1..] + ys;
      PlaySplit(Step(r, xs[0], words, target).round, xs[1..], ys, words, target);
    } else if |xs| == 0 {
      assert xs + ys == ys;
    }
  }

  /** Without a quit or a hit, the attempt counter counts exactly the valid misses, and the round
      is exhausted once there have been six of them. */
  lemma {:induction false} AttemptsCountMisses(a: nat, inputs: seq<string>, words: seq<string>, target: string)
    requires a < MaxAttempts && |target| >= WordLen
    requires forall k :: 0 <= k < |inputs| ==> !Decisive(inputs[k], words, target)
    ensures Play(InProgress(a), inputs, words, target) == AfterMisses(a + Misses(inputs, words, target))
    decreases |inputs|
  {
    if |inputs| > 0 {
      var next := Step(InProgress(a), inputs[0], words, target).round;
      assert forall k :: 0 <= k < |inputs[1..]| ==> inputs[1..][k] == inputs[k + 1];
      if next.InProgress? {
        AttemptsCountMisses(next.attempts, inputs[1..], words, target);
      }
    }
  }

  /** A hit wins whenever it comes before the sixth miss, without spending an attempt, and
      nothing typed after it matters. */
  lemma WinBeforeExhaustion(a: nat, xs: seq<string>, hit: string, ys: seq<string>, words: seq<string>, target: string)
    requires a < MaxAttempts && |target| >= WordLen
    requires forall k :: 0 <= k < |xs| ==> !Decisive(xs[k], words, target)
    requires a + Misses(xs, words, target) < MaxAttempts
    requires IsHit(hit, words, target)
    ensures Play(InProgress(a), xs + [hit] + ys, words, target) == Won
  {
    AttemptsCountMisses(a, xs, words, target);
    PlaySplit(InProgress(a), xs, [hit] + ys, words, target);
    assert xs + [hit] + ys == xs + ([hit] + ys);
  }

  /** Quitting ends the round at any point before the sixth miss. */
  lemma QuitEndsRound(a: nat, xs: seq<string>, quit: string, ys: seq<string>, words: seq<string>, target: string)
    requires a < MaxAttempts && |target| >= WordLen
    requires forall k :: 0 <= k < |xs| ==> !Decisive(xs[k], words, target)
    requires a + Misses(xs, words, target) < MaxAttempts
    requires IsQuit(quit)
    ensures Play(InProgress(a), xs + [quit] + ys, words, target) == Quit
  {
    AttemptsCountMisses(a, xs, words, target);
    PlaySplit(InProgress(a), xs, [quit] + ys, words, target);
    assert xs + [quit] + ys == xs + ([quit] + ys);
  }

  /** Six misses with nothing decisive among them end the round as exhausted, whatever follows. */
  lemma SixMissesExhaust(xs: seq<string>, ys: seq<string>, words: seq<string>, target: string)
    requires |target| >= WordLen
    requires forall k :: 0 <= k < |xs| ==> !Decisive(xs[k], words, target)
    requires Misses(xs, words, target) >= MaxAttempts
    ensures Play(InProgress(0), xs + ys, words, target) == Exhausted
  {
    AttemptsCountMisses(0, xs, words, target);
    PlaySplit(InProgress(0), xs, ys, words, target);
  }

  /** How a finished round leaves `check_word`. */
  datatype Ending = ExitProcess | Returns(value: bool)

  /** The terminal variant calls `exit()` on every outcome. */
  function TerminalEnding(r: Round): (e: Ending)
    requires !r.InProgress?
    ensures e == ExitProcess
  {
    ExitProcess
  }

  /** The Streamlit variant returns to its caller on a win (`True`) or a quit (`False`), but still
      calls `exit()` when the attempts run out. */
  function StreamlitEnding(r: Round): (e: Ending)
    requires !r.InProgress?
    ensures e.Returns? <==> !r.Exhausted?
    ensures e.Returns? ==> (e.value <==> r.Won?)
  {
    match r
    case Won => Returns(true)
    case Quit => Returns(false)
    case Exhausted => ExitProcess
  }

  /** The two variants leave a finished round the same way only when the attempts ran out: the
      Streamlit page returns from a win or a quit where the terminal program exits. */
  lemma EndingsAgreeOnlyOnExhaustion(r: Round)
    requires !r.InProgress?
    ensures TerminalEnding(r) == StreamlitEnding(r) <==> r.Exhausted?
  {
  }
}
