/** Python's slice bounds. */
module Slices {

  // The length of `xs[:k]` for a list of n: a negative k counts from the end.
  function TakeLength(n: nat, k: int): (t: nat)
    ensures t <= n
    ensures 0 <= k <= n ==> t == k
  {
    if k >= n then n
    else if k >= 0 then k
    else if k + n >= 0 then k + n
    else 0
  }

  // Position i of the list is kept exactly when it lies before the bound, which a negative k
  // counts from the end.
  lemma TakenPositions(n: nat, k: int, i: int)
    ensures i < TakeLength(n, k) && i >= 0 <==> 0 <= i < n && i - (if k < 0 then n else 0) < k
  {
  }
}
