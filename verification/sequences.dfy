/** Counting and searching in sequences, in the shape of Python's `list.count` and `list.index`. */
module Sequences {
  import opened Wrappers

  /** Number of occurrences of `x` in `s`; unfolds from the back so that prefixes `s[..n]` unfold too. */
  function Occ<T(==)>(s: seq<T>, x: T): nat
  {
    if |s| == 0 then 0 else Occ(s[..|s| - 1], x) + (if s[|s| - 1] == x then 1 else 0)
  }

  /** Position of the first occurrence of `x` in `s` (Python's `s.index(x)`), or `None` where
      Python's `x in s` is false. */
  function IndexOf<T(==)>(s: seq<T>, x: T): (r: Option<nat>)
    ensures r.None? <==> x !in s
    ensures r.Some? ==> r.value < |s| && s[r.value] == x && x !in s[..r.value]
  {
    if |s| == 0 then None
    else if s[0] == x then Some(0)
    else match IndexOf(s[1..], x)
      case None => None
      case Some(j) => assert s[1..][..j] == s[1..j + 1]; Some(j + 1)
  }

  /** An element occurs in a sequence exactly when its count is positive. */
  lemma {:induction false} OccPositive<T>(s: seq<T>, x: T)
    ensures x in s <==> Occ(s, x) > 0
  {
    if |s| > 0 {
      var init := s[..|s| - 1];
      OccPositive(init, x);
      assert s == init + [s[|s| - 1]];
    }
  }

  /** Overwriting one slot moves one unit of count from the old value to the new one. */
  lemma {:induction false} OccUpdate<T>(s: seq<T>, j: nat, y: T, x: T)
    requires j < |s|
    ensures Occ(s[j := y], x) + (if s[j] == x then 1 else 0) == Occ(s, x) + (if y == x then 1 else 0)
  {
    var n := |s| - 1;
    if j == n {
      assert s[j := y][..n] == s[..n];
    } else {
      assert s[j := y][..n] == s[..n][j := y];
      OccUpdate(s[..n], j, y, x);
    }
  }
}
