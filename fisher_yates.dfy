/** The Fisher–Yates shuffle used by `getShuffledWords` (puzzles.ts) and by
    `shuffle` (puzzleGenerator.ts): for `i` from `length - 1` down to 1, swap
    position `i` with a position `j` drawn from `0..i`. */
module FisherYates {
  import opened Random

  /** `[s[i], s[j]] = [s[j], s[i]]` on a value. */
  function Swap<T>(s: seq<T>, i: nat, j: nat): seq<T>
    requires i < |s| && j < |s|
  {
    s[i := s[j]][j := s[i]]
  }

  lemma SwapPermutation<T>(s: seq<T>, i: nat, j: nat)
    requires i < |s| && j < |s|
    ensures multiset(Swap(s, i, j)) == multiset(s)
  {
  }

  /** The position that step `i` swaps with, when its draw is `rand[pos]`. */
  function Partner(rand: seq<nat>, pos: nat, i: nat): (j: nat)
    ensures j <= i
  {
    FloorTimes(DrawAt(rand, pos), i + 1)
  }

  /** Steps `i`, `i - 1`, ..., 1 of the loop, step `i` reading draw `pos`. */
  function Steps<T>(s: seq<T>, rand: seq<nat>, pos: nat, i: nat): (r: seq<T>)
    requires i < |s| || i == 0
    ensures |r| == |s|
    decreases i
  {
    if i == 0 then s
    else Steps(Swap(s, i, Partner(rand, pos, i)), rand, pos + 1, i - 1)
  }

  /** The steps only exchange elements. */
  lemma {:induction false} StepsPermutation<T>(s: seq<T>, rand: seq<nat>, pos: nat, i: nat)
    requires i < |s| || i == 0
    ensures |Steps(s, rand, pos, i)| == |s|
    ensures multiset(Steps(s, rand, pos, i)) == multiset(s)
    decreases i
  {
    if i > 0 {
      SwapPermutation(s, i, Partner(rand, pos, i));
      StepsPermutation(Swap(s, i, Partner(rand, pos, i)), rand, pos + 1, i - 1);
    }
  }

  /** Step `i` swaps `i` with a position at or below it, so once step `i` has
      run, the positions above `i` are never touched again. */
  lemma {:induction false} StepsKeepAbove<T>(s: seq<T>, rand: seq<nat>, pos: nat, i: nat, k: nat)
    requires i < |s| || i == 0
    requires i < k < |s|
    ensures |Steps(s, rand, pos, i)| == |s|
    ensures Steps(s, rand, pos, i)[k] == s[k]
    decreases i
  {
    if i > 0 {
      StepsKeepAbove(Swap(s, i, Partner(rand, pos, i)), rand, pos + 1, i - 1, k);
    }
  }

  /** The whole shuffle of `s`, reading the draws from index `pos` on. */
  function Shuffled<T>(s: seq<T>, rand: seq<nat>, pos: nat): (r: seq<T>)
    ensures |r| == |s|
  {
    if |s| <= 1 then s else Steps(s, rand, pos, |s| - 1)
  }

  /** How many draws a shuffle of `len` elements consumes. */
  function DrawsUsed(len: nat): nat
  {
    if len <= 1 then 0 else len - 1
  }

  /** A shuffle is a permutation: same length, same elements, same
      multiplicities. */
  lemma ShuffledIsPermutation<T>(s: seq<T>, rand: seq<nat>, pos: nat)
    ensures |Shuffled(s, rand, pos)| == |s|
    ensures multiset(Shuffled(s, rand, pos)) == multiset(s)
  {
    if |s| > 1 {
      StepsPermutation(s, rand, pos, |s| - 1);
    }
  }

  /** After step `i` the last position holds what step `|s| - 1` put there:
      the element at the drawn partner of the first step. */
  lemma {:induction false} ShuffledLast<T>(s: seq<T>, rand: seq<nat>, pos: nat)
    requires |s| >= 2
    ensures Shuffled(s, rand, pos)[|s| - 1] == s[Partner(rand, pos, |s| - 1)]
  {
    var i := |s| - 1;
    var t := Swap(s, i, Partner(rand, pos, i));
    assert Shuffled(s, rand, pos) == Steps(t, rand, pos + 1, i - 1);
    if i > 1 {
      StepsKeepAbove(t, rand, pos + 1, i - 1, i);
    }
  }

  /** One exchange of the loop body, `[a[i], a[j]] = [a[j], a[i]]`. */
  method SwapInPlace<T>(a: array<T>, i: nat, j: nat)
    requires i < a.Length && j < a.Length
    modifies a
    ensures a[..] == Swap(old(a[..]), i, j)
  {
    var t := a[i];
    a[i] := a[j];
    a[j] := t;
    assert forall k :: 0 <= k < a.Length ==> a[k] == Swap(old(a[..]), i, j)[k];
  }

  /** The loop of the source, run in place on `a`. */
  method ShuffleInPlace<T>(a: array<T>, rand: seq<nat>, pos: nat) returns (next: nat)
    modifies a
    ensures a[..] == Shuffled(old(a[..]), rand, pos)
    ensures next == pos + DrawsUsed(a.Length)
  {
    next := pos;
    if a.Length <= 1 {
      return;
    }
    var i := a.Length - 1;
    ghost var goal := Shuffled(a[..], rand, pos);
    assert goal == Steps(a[..], rand, pos, i);
    while i > 0
      invariant 0 <= i < a.Length
      invariant next == pos + (a.Length - 1 - i)
      invariant Steps(a[..], rand, next, i) == goal
    {
      var j := Partner(rand, next, i);
      ghost var before := a[..];
      assert Steps(before, rand, next, i) == Steps(Swap(before, i, j), rand, next + 1, i - 1);
      SwapInPlace(a, i, j);
      i := i - 1;
      next := next + 1;
    }
  }

  /** `shuffle(array)` of puzzleGenerator.ts: shuffles a copy and returns it. */
  method Shuffle<T>(input: seq<T>, rand: seq<nat>, pos: nat) returns (r: seq<T>, next: nat)
    ensures r == Shuffled(input, rand, pos)
    ensures |r| == |input| && multiset(r) == multiset(input)
    ensures next == pos + DrawsUsed(|input|)
  {
    var a := new T[|input|](k requires 0 <= k < |input| => input[k]);
    assert a[..] == input;
    next := ShuffleInPlace(a, rand, pos);
    r := a[..];
    ShuffledIsPermutation(input, rand, pos);
  }
}
