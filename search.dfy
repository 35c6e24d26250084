/** Exhaustive search of a board for sets. */
module Search {
  import opened Cards

  /** Three board positions `i < j < k`, as the server reports them. */
  datatype Triple = Triple(i: nat, j: nat, k: nat)

  /** `t` names three increasing positions on `board` whose cards form a set. */
  predicate IsSetTriple(board: seq<Card>, t: Triple) {
    t.i < t.j < t.k < |board| && IsValidSet([board[t.i], board[t.j], board[t.k]])
  }

  /** Lexicographic order on triples, the order of the nested scan. */
  predicate LexLess(a: Triple, b: Triple) {
    a.i < b.i || (a.i == b.i && (a.j < b.j || (a.j == b.j && a.k < b.k)))
  }

  /** The board holds no set at all. */
  ghost predicate NoSet(board: seq<Card>) {
    forall t :: !IsSetTriple(board, t)
  }

  /** `t` comes before position (i, j, k) in the scan. */
  predicate ScannedBefore(t: Triple, i: nat, j: nat, k: nat) {
    t.i < i || (t.i == i && (t.j < j || (t.j == j && t.k < k)))
  }

  predicate Ascending(sets: seq<Triple>) {
    forall a, b :: 0 <= a < b < |sets| ==> LexLess(sets[a], sets[b])
  }

  /**
   * `findSets`: every triple of increasing positions whose cards form a set, each once, in
   * ascending lexicographic order.
   */
  method FindSets(board: seq<Card>) returns (sets: seq<Triple>)
    ensures forall t :: t in sets ==> IsSetTriple(board, t)
    ensures forall t :: IsSetTriple(board, t) ==> t in sets
    ensures Ascending(sets)
  {
    sets := [];
    var n := |board|;
    for i := 0 to n
      invariant forall t :: t in sets ==> IsSetTriple(board, t) && t.i < i
      invariant forall t :: IsSetTriple(board, t) && t.i < i ==> t in sets
      invariant Ascending(sets)
    {
      for j := i + 1 to n
        invariant forall t :: t in sets ==> IsSetTriple(board, t) && ScannedBefore(t, i, j, 0)
        invariant forall t :: IsSetTriple(board, t) && ScannedBefore(t, i, j, 0) ==> t in sets
        invariant Ascending(sets)
      {
        for k := j + 1 to n
          invariant forall t :: t in sets ==> IsSetTriple(board, t) && ScannedBefore(t, i, j, k)
          invariant forall t :: IsSetTriple(board, t) && ScannedBefore(t, i, j, k) ==> t in sets
          invariant Ascending(sets)
        {
          if IsValidSet([board[i], board[j], board[k]]) {
            sets := sets + [Triple(i, j, k)];
          }
        }
      }
    }
  }
}
