/** Clockwise distance on the ring of 160 positions, and the two wrap-around tests of chord/local.go. */
module Ring {
  import opened Models

  /** Steps clockwise from a to b, from 1 to 160: a position is a whole turn away from itself. */
  function Dist(a: Position, b: Position): (d: nat)
    ensures 1 <= d <= 160
  {
    if a < b then b - a else b - a + 160
  }

  /** The test of ClosestPrecedingNode: a finger at f is met going clockwise from l, strictly before k. */
  predicate Between(l: Position, f: Position, k: Position): (b: bool)
    ensures b <==> Dist(l, f) < Dist(l, k)
    ensures b ==> Dist(f, k) == Dist(l, k) - Dist(l, f)
  {
    if l < k then l < f && f < k else l < f || f < k
  }

  /** The test of SetPredecessor: n comes strictly after p on the way clockwise to l. */
  predicate Nearer(l: Position, p: Position, n: Position): (b: bool)
    ensures b <==> Dist(n, l) < Dist(p, l)
  {
    if p < l then p < n && n < l else n < l || p < n
  }

  /** Steps clockwise from k to p when the start counts as reached, from 0 to 159. */
  function Offset(k: Position, p: Position): nat {
    if k <= p then p - k else p - k + 160
  }

  /** Of the nodes met from n on, the first one not before k is also the first one met from k on. */
  lemma FirstFromKey(n: Position, s: Position, k: Position, m: Position)
    requires Dist(n, k) <= Dist(n, s) <= Dist(n, m)
    ensures Offset(k, s) <= Offset(k, m)
  {
  }
}
