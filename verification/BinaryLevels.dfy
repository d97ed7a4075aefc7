/** Levels of a balanced binary tree, counted from the leaves. */
module BinaryLevels {

  function Pow2(k: nat): (r: nat)
    ensures r >= 1
  {
    if k == 0 then 1 else 2 * Pow2(k - 1)
  }

  /** The leftmost leaf under the node at position `p` of the level `k` above the leaves. */
  function Leftmost(p: nat, k: nat): nat
    decreases k
  {
    if k == 0 then p else Leftmost(2 * p, k - 1)
  }

  /** Leaf `s` is the leftmost leaf of some node `k` levels up, that is, 2^k divides `s`. */
  predicate Aligned(s: nat, k: nat) {
    k == 0 || (s % 2 == 0 && Aligned(s / 2, k - 1))
  }

  /** The position, `k` levels up, of the node above leaf `s`. */
  function Ancestor(s: nat, k: nat): nat {
    if k == 0 then s else Ancestor(s / 2, k - 1)
  }
}
