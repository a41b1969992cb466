/** Wordle's feedback rule stated declaratively, by counting, with no letter pool: the reference
    against which the two-pass classifier is proved. */
module WordleRules {
  import opened Sequences

  /** Per-letter feedback: right letter in the right place, right letter elsewhere, or neither. */
  datatype Verdict = Green | Yellow | Grey

  /** Position `j` is an exact (positional) match. */
  predicate Exact(guess: string, target: string, j: int)
  {
    0 <= j < |guess| && j < |target| && guess[j] == target[j]
  }

  /** Among guess positions below `n`, how many hold `c` without matching exactly. */
  function Unplaced(guess: string, target: string, n: nat, c: char): nat
    requires n <= |guess| <= |target|
  {
    if n == 0 then 0
    else Unplaced(guess, target, n - 1, c) + (if guess[n - 1] == c && !Exact(guess, target, n - 1) then 1 else 0)
  }

  /** Among target positions below `n`, how many hold `c` without being matched exactly: the copies
      of `c` that can still back a "present" verdict. */
  function Spare(guess: string, target: string, n: nat, c: char): nat
    requires n <= |target|
  {
    if n == 0 then 0
    else Spare(guess, target, n - 1, c) + (if target[n - 1] == c && !Exact(guess, target, n - 1) then 1 else 0)
  }

  /** Among positions below `n`, how many are exact matches on the letter `c`. */
  function Placed(guess: string, target: string, n: nat, c: char): nat
    requires n <= |target|
  {
    if n == 0 then 0
    else Placed(guess, target, n - 1, c) + (if Exact(guess, target, n - 1) && target[n - 1] == c then 1 else 0)
  }

  /** The verdict Wordle owes position `i`: green on an exact match; otherwise yellow while the
      non-exact occurrences of the letter seen so far have not used up its spare copies in the
      target; otherwise grey. */
  function Expected(guess: string, target: string, i: nat): Verdict
    requires i < |guess| <= |target|
  {
    if guess[i] == target[i] then Green
    else if Unplaced(guess, target, i, guess[i]) < Spare(guess, target, |target|, guess[i]) then Yellow
    else Grey
  }

  function ExpectedVerdicts(guess: string, target: string): (r: seq<Verdict>)
    requires |guess| <= |target|
    ensures |r| == |guess|
    ensures forall i :: 0 <= i < |guess| ==> r[i] == Expected(guess, target, i)
  {
    seq(|guess|, i requires 0 <= i < |guess| => Expected(guess, target, i))
  }

  /** Among guess positions below `n`, how many hold `c` and were credited (green or yellow). */
  function Credits(guess: string, verdicts: seq<Verdict>, n: nat, c: char): nat
    requires n <= |guess| == |verdicts|
  {
    if n == 0 then 0
    else Credits(guess, verdicts, n - 1, c) + (if guess[n - 1] == c && verdicts[n - 1] != Grey then 1 else 0)
  }

  function Min(a: int, b: int): int { if a <= b then a else b }

  /** Credits on `c` so far are its exact matches plus as many of its other occurrences as there
      are spare copies of `c`. */
  lemma {:induction false} CreditsSoFar(guess: string, target: string, n: nat, c: char)
    requires n <= |guess| <= |target|
    ensures Credits(guess, ExpectedVerdicts(guess, target), n, c)
            == Placed(guess, target, n, c) + Min(Unplaced(guess, target, n, c), Spare(guess, target, |target|, c))
  {
    if n > 0 {
      CreditsSoFar(guess, target, n - 1, c);
    }
  }

  /** The occurrences of `c` in a prefix of the guess are its exact matches plus the others. */
  lemma {:induction false} GuessSplit(guess: string, target: string, n: nat, c: char)
    requires n <= |guess| <= |target|
    ensures Occ(guess[..n], c) == Placed(guess, target, n, c) + Unplaced(guess, target, n, c)
  {
    if n > 0 {
      GuessSplit(guess, target, n - 1, c);
      assert guess[..n][..n - 1] == guess[..n - 1];
    }
  }

  /** The occurrences of `c` in a prefix of the target are its exact matches plus its spare copies. */
  lemma {:induction false} TargetSplit(guess: string, target: string, n: nat, c: char)
    requires n <= |target|
    ensures Occ(target[..n], c) == Placed(guess, target, n, c) + Spare(guess, target, n, c)
  {
    if n > 0 {
      TargetSplit(guess, target, n - 1, c);
      assert target[..n][..n - 1] == target[..n - 1];
    }
  }

  /** Positions past the end of the guess hold no exact match. */
  lemma {:induction false} PlacedWithinGuess(guess: string, target: string, n: nat, c: char)
    requires |guess| <= n <= |target|
    ensures Placed(guess, target, n, c) == Placed(guess, target, |guess|, c)
  {
    if n > |guess| {
      PlacedWithinGuess(guess, target, n - 1, c);
    }
  }

  /** The rule credits each letter exactly as often as it occurs in both words: the smaller of its
      counts in the guess and in the target. In particular no letter is credited more often than
      the target holds it. */
  lemma CreditsAreCommonLetters(guess: string, target: string)
    requires |guess| <= |target|
    ensures forall c :: Credits(guess, ExpectedVerdicts(guess, target), |guess|, c) == Min(Occ(guess, c), Occ(target, c))
  {
    forall c
      ensures Credits(guess, ExpectedVerdicts(guess, target), |guess|, c) == Min(Occ(guess, c), Occ(target, c))
    {
      CreditsSoFar(guess, target, |guess|, c);
      GuessSplit(guess, target, |guess|, c);
      TargetSplit(guess, target, |target|, c);
      PlacedWithinGuess(guess, target, |target|, c);
      assert guess[..|guess|] == guess;
      assert target[..|target|] == target;
    }
  }

  /** A spare copy of `c` is a target position holding `c` that is not matched exactly. */
  lemma {:induction false} SpareWitness(guess: string, target: string, n: nat, c: char)
    requires n <= |target|
    ensures Spare(guess, target, n, c) > 0 <==> exists j :: 0 <= j < n && target[j] == c && !Exact(guess, target, j)
  {
    if n > 0 {
      SpareWitness(guess, target, n - 1, c);
    }
  }
}
