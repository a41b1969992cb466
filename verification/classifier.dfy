/** The two-pass letter classifier (`compare`) shared by the terminal, Streamlit and Tkinter
    variants, written the way the source runs it: an output slot per guess position and a pool
    holding one slot per target letter, where a consumed letter becomes `None`. */
module Classifier {
  import opened Wrappers
  import opened Sequences
  import opened WordleRules

  /** The classifier's working state: `output` has one slot per guess position (`None` is the
      empty string the source starts from) and `remaining` is the letter pool. */
  datatype Scratch = Scratch(output: seq<Option<Verdict>>, remaining: seq<Option<char>>)

  /** Both lists at the start: nothing decided, every target letter available. */
  function Start(guess: string, target: string): (s: Scratch)
    ensures |s.output| == |guess| && |s.remaining| == |target|
  {
    Scratch(seq(|guess|, _ => None), seq(|target|, j requires 0 <= j < |target| => Some(target[j])))
  }

  /** Pass 1 from position `i` on: an exact match is marked green and its pool slot consumed. */
  function ExactPass(guess: string, s: Scratch, i: nat): (r: Scratch)
    requires |s.output| == |guess| <= |s.remaining| && i <= |guess|
    ensures |r.output| == |s.output| && |r.remaining| == |s.remaining|
    decreases |guess| - i
  {
    if i == |guess| then s
    else if s.remaining[i] == Some(guess[i]) then
      ExactPass(guess, Scratch(s.output[i := Some(Green)], s.remaining[i := None]), i + 1)
    else ExactPass(guess, s, i + 1)
  }

  /** Pass 2 from position `i` on: a position still undecided is yellow when its letter is still
      in the pool, consuming the first such slot, and grey otherwise. */
  function PresencePass(guess: string, s: Scratch, i: nat): (r: Scratch)
    requires |s.output| == |guess| && i <= |guess|
    ensures |r.output| == |s.output|
    decreases |guess| - i
  {
    if i == |guess| then s
    else if s.output[i].Some? then PresencePass(guess, s, i + 1)
    else match IndexOf(s.remaining, Some(guess[i]))
      case Some(j) => PresencePass(guess, Scratch(s.output[i := Some(Yellow)], s.remaining[j := None]), i + 1)
      case None => PresencePass(guess, Scratch(s.output[i := Some(Grey)], s.remaining), i + 1)
  }

  /** What pass 1 leaves in output slot `k`. */
  function FirstMark(guess: string, target: string, k: nat): Option<Verdict>
    requires k < |guess| <= |target|
  {
    if guess[k] == target[k] then Some(Green) else None
  }

  /** What pass 1 leaves in pool slot `j`. */
  function FirstPool(guess: string, target: string, j: nat): Option<char>
    requires j < |target|
  {
    if Exact(guess, target, j) then None else Some(target[j])
  }

  /** Pass 1 has handled the positions below `i`. */
  ghost predicate ExactUpTo(guess: string, target: string, s: Scratch, i: nat)
  {
    && i <= |guess| <= |target|
    && |s.output| == |guess| && |s.remaining| == |target|
    && (forall k :: 0 <= k < |guess| ==> s.output[k] == if k < i then FirstMark(guess, target, k) else None)
    && (forall j :: 0 <= j < |target| ==> s.remaining[j] == if j < i then FirstPool(guess, target, j) else Some(target[j]))
  }

  /** Pass 1 marks exactly the positional matches green and consumes exactly their pool slots. */
  lemma {:induction false} ExactPassMarksMatches(guess: string, target: string, s: Scratch, i: nat)
    requires ExactUpTo(guess, target, s, i)
    ensures ExactUpTo(guess, target, ExactPass(guess, s, i), |guess|)
    decreases |guess| - i
  {
    if i < |guess| {
      if s.remaining[i] == Some(guess[i]) {
        var s' := Scratch(s.output[i := Some(Green)], s.remaining[i := None]);
        assert ExactUpTo(guess, target, s', i + 1);
        ExactPassMarksMatches(guess, target, s', i + 1);
      } else {
        assert ExactUpTo(guess, target, s, i + 1);
        ExactPassMarksMatches(guess, target, s, i + 1);
      }
    }
  }

  /** Clamp at zero. */
  function Gap(x: int): nat { if x > 0 then x else 0 }

  /** Pass 2 has handled the positions below `i`: they carry the verdict the rule expects, the
      later ones still carry what pass 1 left, and the pool holds, for every letter, its spare
      copies minus the non-exact occurrences already seen. */
  ghost predicate PresenceUpTo(guess: string, target: string, s: Scratch, i: nat)
  {
    && i <= |guess| <= |target|
    && |s.output| == |guess| && |s.remaining| == |target|
    && (forall k :: 0 <= k < |guess| ==>
          s.output[k] == if k < i then Some(Expected(guess, target, k)) else FirstMark(guess, target, k))
    && (forall c :: Occ(s.remaining, Some(c)) == Gap(Spare(guess, target, |target|, c) - Unplaced(guess, target, i, c)))
  }

  /** The pool pass 1 leaves holds exactly the spare copies of every letter. */
  lemma {:induction false} FirstPoolHoldsSpares(guess: string, target: string, pool: seq<Option<char>>, n: nat, c: char)
    requires |guess| <= |target| == |pool| && n <= |pool|
    requires forall j :: 0 <= j < |target| ==> pool[j] == FirstPool(guess, target, j)
    ensures Occ(pool[..n], Some(c)) == Spare(guess, target, n, c)
  {
    if n > 0 {
      FirstPoolHoldsSpares(guess, target, pool, n - 1, c);
      assert pool[..n][..n - 1] == pool[..n - 1];
    }
  }

  /** Pass 2 gives every position the verdict the counting rule expects. */
  lemma {:induction false} PresencePassFollowsRule(guess: string, target: string, s: Scratch, i: nat)
    requires PresenceUpTo(guess, target, s, i)
    ensures PresenceUpTo(guess, target, PresencePass(guess, s, i), |guess|)
    decreases |guess| - i
  {
    if i < |guess| {
      var c0 := guess[i];
      if s.output[i].Some? {
        assert PresenceUpTo(guess, target, s, i + 1);
        PresencePassFollowsRule(guess, target, s, i + 1);
      } else {
        OccPositive(s.remaining, Some(c0));
        match IndexOf(s.remaining, Some(c0))
        case Some(j) =>
          var s' := Scratch(s.output[i := Some(Yellow)], s.remaining[j := None]);
          forall c
            ensures Occ(s'.remaining, Some(c)) == Gap(Spare(guess, target, |target|, c) - Unplaced(guess, target, i + 1, c))
          {
            OccUpdate(s.remaining, j, None, Some(c));
          }
          assert PresenceUpTo(guess, target, s', i + 1);
          PresencePassFollowsRule(guess, target, s', i + 1);
        case None =>
          var s' := Scratch(s.output[i := Some(Grey)], s.remaining);
          assert PresenceUpTo(guess, target, s', i + 1);
          PresencePassFollowsRule(guess, target, s', i + 1);
      }
    }
  }

  /** After pass 1 the state is where pass 2 starts: greens at the matches and, for every
      letter, its spare copies in the pool. */
  lemma FirstPassReadiesSecond(guess: string, target: string)
    requires |guess| <= |target|
    ensures PresenceUpTo(guess, target, ExactPass(guess, Start(guess, target), 0), 0)
  {
    var s0 := Start(guess, target);
    assert ExactUpTo(guess, target, s0, 0);
    ExactPassMarksMatches(guess, target, s0, 0);
    var s1 := ExactPass(guess, s0, 0);
    forall c
      ensures Occ(s1.remaining, Some(c)) == Gap(Spare(guess, target, |target|, c) - Unplaced(guess, target, 0, c))
    {
      FirstPoolHoldsSpares(guess, target, s1.remaining, |target|, c);
      assert s1.remaining[..|target|] == s1.remaining;
    }
  }

  /** Both passes together decide every position, as the counting rule does. */
  lemma TwoPassesFollowRule(guess: string, target: string)
    requires |guess| <= |target|
    ensures var s := PresencePass(guess, ExactPass(guess, Start(guess, target), 0), 0);
            forall k :: 0 <= k < |guess| ==> s.output[k] == Some(Expected(guess, target, k))
  {
    FirstPassReadiesSecond(guess, target);
    PresencePassFollowsRule(guess, target, ExactPass(guess, Start(guess, target), 0), 0);
  }

  /** `compare`: one verdict per guess position, in guess order. The source only reads target
      positions below the guess length, so a target at least as long as the guess is enough. */
  function Compare(guess: string, target: string): (r: seq<Verdict>)
    requires |guess| <= |target|
    ensures r == ExpectedVerdicts(guess, target)
  {
    var s := PresencePass(guess, ExactPass(guess, Start(guess, target), 0), 0);
    TwoPassesFollowRule(guess, target);
    assert forall k :: 0 <= k < |s.output| ==> s.output[k] == Some(Expected(guess, target, k));
    Decided(s.output)
  }

  /** The verdicts of an output list all of whose slots have been filled (the source's `"".join`). */
  function Decided(output: seq<Option<Verdict>>): (r: seq<Verdict>)
    requires forall k :: 0 <= k < |output| ==> output[k].Some?
    ensures |r| == |output| && forall k :: 0 <= k < |output| ==> output[k] == Some(r[k])
  {
    seq(|output|, k requires 0 <= k < |output| => output[k].value)
  }

  /** For every letter, the green and yellow verdicts on guess positions holding it number the
      smaller of its counts in the guess and in the target: the pool never hands out a copy the
      target does not have. */
  lemma LetterCountBound(guess: string, target: string)
    requires |guess| <= |target|
    ensures forall c :: Credits(guess, Compare(guess, target), |guess|, c) == Min(Occ(guess, c), Occ(target, c)) <= Occ(target, c)
  {
    CreditsAreCommonLetters(guess, target);
  }

  /** A yellow verdict is never a positional match and is always backed by a target position that
      holds the letter and was not consumed by an exact match. */
  lemma NoFalsePresent(guess: string, target: string, i: nat)
    requires i < |guess| <= |target|
    requires Compare(guess, target)[i] == Yellow
    ensures guess[i] != target[i]
    ensures exists j :: 0 <= j < |target| && target[j] == guess[i] && !Exact(guess, target, j)
  {
    SpareWitness(guess, target, |target|, guess[i]);
  }

  /** The first non-matching occurrence of a letter that has an unmatched copy in the target is
      yellow: pass 2 does not miss a letter that is still in the pool. */
  lemma FirstUnplacedIsYellow(guess: string, target: string, i: nat, j: nat)
    requires i < |guess| <= |target| && j < |target|
    requires guess[i] != target[i]
    requires target[j] == guess[i] && !Exact(guess, target, j)
    requires forall k :: 0 <= k < i && guess[k] == guess[i] ==> guess[k] == target[k]
    ensures Compare(guess, target)[i] == Yellow
  {
    SpareWitness(guess, target, |target|, guess[i]);
    NoEarlierUnplaced(guess, target, i, guess[i]);
  }

  lemma {:induction false} NoEarlierUnplaced(guess: string, target: string, n: nat, c: char)
    requires n <= |guess| <= |target|
    requires forall k :: 0 <= k < n && guess[k] == c ==> guess[k] == target[k]
    ensures Unplaced(guess, target, n, c) == 0
  {
    if n > 0 {
      NoEarlierUnplaced(guess, target, n - 1, c);
    }
  }

  /** A letter the target does not contain is grey. */
  lemma AbsentLetterIsGrey(guess: string, target: string, i: nat)
    requires i < |guess| <= |target|
    requires guess[i] !in target
    ensures Compare(guess, target)[i] == Grey
  {
    SpareWitness(guess, target, |target|, guess[i]);
  }

  /** Green exactly at the positional matches: pass 2 never reclassifies a position pass 1 made
      green, and never makes another one green. */
  lemma GreenExactlyAtMatches(guess: string, target: string)
    requires |guess| <= |target|
    ensures forall i :: 0 <= i < |guess| ==> (Compare(guess, target)[i] == Green <==> guess[i] == target[i])
  {
  }

  /** A word compared with itself is all green. */
  lemma SelfCompareAllGreen(w: string)
    ensures forall i :: 0 <= i < |w| ==> Compare(w, w)[i] == Green
  {
  }
}
