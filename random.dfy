/** The site draws all its randomness from `Math.random()`. Here every call is
    replaced by one draw `u: nat` that the caller supplies. A sequence of draws
    is consumed front to back; once it is used up every further call reads 0.
    A call scaled to an index, `Math.floor(Math.random() * k)`, reads the draw
    as the index itself (clamped to `k - 1`), so every index the source can
    pick is the outcome of some draw; a comparison `Math.random() > p` reads
    the draw as the fraction `(u % Scale) / Scale` of [0, 1). */
module Random {

  const Scale: nat := 1000000

  /** The `k`-th supplied draw, or 0 once the draws are used up. */
  function DrawAt(rand: seq<nat>, k: nat): nat
  {
    if k < |rand| then rand[k] else 0
  }

  /** `Math.floor(Math.random() * bound)`: an index below `bound`. */
  function FloorTimes(u: nat, bound: nat): (r: nat)
    ensures bound > 0 ==> r < bound
    ensures u < bound ==> r == u
  {
    if bound == 0 then 0 else if u < bound then u else bound - 1
  }

  /** `Math.random() > num / den`. */
  predicate Exceeds(u: nat, num: nat, den: nat)
    requires den > 0
  {
    (u % Scale) * den > num * Scale
  }
}
