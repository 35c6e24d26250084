/** Removing a matched set from the board. */
module Board {

  /**
   * Reference definition: the elements of `s` whose positions (counted from `from`) are
   * not in `drop`, in their original order.
   */
  function KeepExcept<T>(s: seq<T>, drop: set<nat>, from: nat): (r: seq<T>)
    ensures |r| <= |s|
    decreases |s|
  {
    if s == [] then []
    else if from in drop then KeepExcept(s[1..], drop, from + 1)
    else [s[0]] + KeepExcept(s[1..], drop, from + 1)
  }

  /** `s` without the positions in `drop`. */
  function RemoveIndices<T>(s: seq<T>, drop: set<nat>): seq<T> {
    KeepExcept(s, drop, 0)
  }

  /** `array.splice(k, 1)` on a value. */
  function RemoveAt<T>(s: seq<T>, k: nat): (r: seq<T>)
    requires k < |s|
    ensures |r| == |s| - 1
    ensures forall t :: 0 <= t < k ==> r[t] == s[t]
    ensures forall t :: k <= t < |r| ==> r[t] == s[t + 1]
  {
    s[..k] + s[k + 1..]
  }

  /** A stretch of `k` positions none of which is dropped is kept whole. */
  lemma {:induction false} KeepPrefix<T>(s: seq<T>, drop: set<nat>, from: nat, k: nat)
    requires k <= |s|
    requires forall x :: x in drop ==> x < from || x >= from + k
    ensures KeepExcept(s, drop, from) == s[..k] + KeepExcept(s[k..], drop, from + k)
    decreases k
  {
    if k > 0 {
      var rest := s[1..];
      var tail := KeepExcept(s[k..], drop, from + k);
      assert from !in drop;
      assert KeepExcept(s, drop, from) == [s[0]] + KeepExcept(rest, drop, from + 1);
      KeepPrefix(rest, drop, from + 1, k - 1);
      assert rest[k - 1..] == s[k..];
      assert KeepExcept(rest, drop, from + 1) == rest[..k - 1] + tail;
      assert s[..k] == [s[0]] + rest[..k - 1];
    }
  }

  /** Positions below `from` play no part. */
  lemma {:induction false} KeepIgnoresBelow<T>(s: seq<T>, drop: set<nat>, from: nat, x: nat)
    requires x < from
    ensures KeepExcept(s, drop + {x}, from) == KeepExcept(s, drop, from)
    decreases |s|
  {
    if s != [] {
      KeepIgnoresBelow(s[1..], drop, from + 1, x);
    }
  }

  /**
   * Removing position `d` after every larger dropped position has gone removes exactly
   * position `d` of the original: this is why the server splices in descending order.
   */
  lemma RemoveBelowDropped<T>(s: seq<T>, drop: set<nat>, d: nat)
    requires d < |s|
    requires forall x :: x in drop ==> x > d
    ensures d < |RemoveIndices(s, drop)|
    ensures RemoveIndices(s, drop + {d}) == RemoveAt(RemoveIndices(s, drop), d)
  {
    var rest := s[d + 1..];
    assert s[d..][1..] == rest;
    var tail := KeepExcept(rest, drop, d + 1);
    KeepPrefix(s, drop, 0, d);
    var kept := RemoveIndices(s, drop);
    assert KeepExcept(s[d..], drop, d) == [s[d]] + tail;
    assert kept == s[..d] + ([s[d]] + tail);
    KeepPrefix(s, drop + {d}, 0, d);
    KeepIgnoresBelow(rest, drop, d + 1, d);
    assert KeepExcept(s[d..], drop + {d}, d) == tail;
    assert RemoveIndices(s, drop + {d}) == s[..d] + tail;
    assert kept[..d] == s[..d];
    assert kept[d + 1..] == tail;
    assert |kept| == d + 1 + |tail|;
    assert RemoveAt(kept, d) == s[..d] + tail;
  }

  /** Every kept element comes from `s`, and no more often than it occurs there. */
  lemma {:induction false} KeepIsSubMultiset<T>(s: seq<T>, drop: set<nat>, from: nat)
    ensures multiset(KeepExcept(s, drop, from)) <= multiset(s)
    decreases |s|
  {
    if s != [] {
      KeepIsSubMultiset(s[1..], drop, from + 1);
      assert s == [s[0]] + s[1..];
    }
  }

  /** The multiplicity of `x` in a non-empty sequence, split at its head. */
  lemma MultiplicityAtHead<T>(s: seq<T>, x: T)
    requires s != []
    ensures multiset(s)[x] == (if s[0] == x then 1 else 0) + multiset(s[1..])[x]
  {
    assert s == [s[0]] + s[1..];
  }

  /** An element that occurs once and also in the tail is not the head. */
  lemma OnceInTail<T>(s: seq<T>, k: nat)
    requires 0 < k < |s| && multiset(s)[s[k]] == 1
    ensures s[0] != s[k] && multiset(s[1..])[s[k]] == 1
  {
    MultiplicityAtHead(s, s[k]);
    assert s[1..][k - 1] == s[k];
  }

  /** What does not occur in `b` does not occur in a sub-multiset of it. */
  lemma AbsentFromSubMultiset<T>(a: seq<T>, b: seq<T>, x: T)
    requires multiset(a) <= multiset(b) && multiset(b)[x] == 0
    ensures x !in a
  {
  }

  /** An element other than the head that the tail does not keep is not kept at all. */
  lemma AbsentAfterHead<T>(s: seq<T>, drop: set<nat>, from: nat, x: T)
    requires s != [] && s[0] != x
    requires x !in KeepExcept(s[1..], drop, from + 1)
    ensures x !in KeepExcept(s, drop, from)
  {
  }

  /** A head that occurs once and is dropped is not kept. */
  lemma DroppedHeadIsGone<T>(s: seq<T>, drop: set<nat>, from: nat)
    requires s != [] && from in drop && multiset(s)[s[0]] == 1
    ensures s[0] !in KeepExcept(s, drop, from)
  {
    var rest := s[1..];
    MultiplicityAtHead(s, s[0]);
    KeepIsSubMultiset(rest, drop, from + 1);
    AbsentFromSubMultiset(KeepExcept(rest, drop, from + 1), rest, s[0]);
  }

  /** An element that occurs once in `s` and sits at a dropped position is not kept. */
  lemma {:induction false} DroppedIsGone<T>(s: seq<T>, drop: set<nat>, from: nat, p: nat)
    requires from <= p < from + |s| && p in drop
    requires multiset(s)[s[p - from]] == 1
    ensures s[p - from] !in KeepExcept(s, drop, from)
    decreases |s|
  {
    var x := s[p - from];
    var rest := s[1..];
    if p == from {
      DroppedHeadIsGone(s, drop, from);
    } else {
      OnceInTail(s, p - from);
      assert rest[p - from - 1] == x;
      DroppedIsGone(rest, drop, from + 1, p);
      AbsentAfterHead(s, drop, from, x);
    }
  }

  /** Positions strictly decreasing, as `sort((a, b) => b - a)` leaves distinct indices. */
  predicate StrictlyDecreasing(idx: seq<nat>) {
    forall a, b :: 0 <= a < b < |idx| ==> idx[a] > idx[b]
  }

  /** The elements of a sequence as a set. */
  function Elements(idx: seq<nat>): set<nat> {
    set x | x in idx
  }

  /** Removing distinct in-range positions shortens the sequence by their number. */
  lemma {:induction false} RemoveSortedLength<T>(board: seq<T>, desc: seq<nat>)
    requires StrictlyDecreasing(desc)
    requires forall t :: 0 <= t < |desc| ==> desc[t] < |board|
    ensures |RemoveIndices(board, Elements(desc))| == |board| - |desc|
    decreases |desc|
  {
    if desc == [] {
      assert Elements(desc) == {};
      assert KeepExcept(board, {}, 0) == board by { KeepPrefix(board, {}, 0, |board|); }
    } else {
      var n := |desc| - 1;
      var prefix := desc[..n];
      RemoveSortedLength(board, prefix);
      RemoveBelowDropped(board, Elements(prefix), desc[n]);
      assert desc == prefix + [desc[n]];
      assert Elements(desc) == Elements(prefix) + {desc[n]};
    }
  }

  /**
   * `for (let index of selectedIndices) board.splice(index, 1)` over indices sorted in
   * descending order: exactly the listed positions go, the rest keep their order.
   */
  method RemoveDescending<T>(board: seq<T>, desc: seq<nat>) returns (r: seq<T>)
    requires StrictlyDecreasing(desc)
    requires forall t :: 0 <= t < |desc| ==> desc[t] < |board|
    ensures r == RemoveIndices(board, Elements(desc))
    ensures |r| == |board| - |desc|
  {
    r := board;
    ghost var removed: set<nat> := {};
    assert KeepExcept(board, {}, 0) == board by { KeepPrefix(board, {}, 0, |board|); }
    for t := 0 to |desc|
      invariant removed == Elements(desc[..t])
      invariant r == RemoveIndices(board, removed)
      invariant |r| == |board| - t
      invariant forall u :: t <= u < |desc| ==> desc[u] + t < |board|
    {
      var index := desc[t];
      RemoveBelowDropped(board, removed, index);
      r := RemoveAt(r, index);
      removed := removed + {index};
      assert desc[..t + 1] == desc[..t] + [index];
    }
    assert desc[..|desc|] == desc;
  }
}
