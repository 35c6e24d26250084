/** A player's in-progress selection of board positions and how a click toggles it. */
module Selection {
  import opened Wrappers
  import opened Board

  /** A selection never holds more than three positions. */
  const MaxSelected: nat := 3

  /** `Array.prototype.indexOf`: the first position of `x` in `s`, or -1. */
  function IndexOf(s: seq<nat>, x: nat): (r: int)
    ensures -1 <= r < |s|
    ensures r == -1 <==> x !in s
    ensures r >= 0 ==> s[r] == x && x !in s[..r]
  {
    if s == [] then -1
    else if s[0] == x then 0
    else
      var k := IndexOf(s[1..], x);
      assert k >= 0 ==> s[1..][..k] == s[1..k + 1];
      if k < 0 then -1 else k + 1
  }

  predicate Distinct(s: seq<nat>) {
    forall a, b :: 0 <= a < b < |s| ==> s[a] != s[b]
  }

  /** What every stored selection satisfies: at most three distinct positions on the board. */
  predicate SelectionOk(sel: seq<nat>, boardSize: nat) {
    |sel| <= MaxSelected && Distinct(sel) &&
    forall t :: 0 <= t < |sel| ==> sel[t] < boardSize
  }

  /**
   * One click on board position `index`: a held position is spliced out, a new one is
   * pushed if fewer than three are held; `None` stands for "Already selected 3 cards".
   */
  function Toggle(sel: seq<nat>, index: nat): (r: Option<seq<nat>>)
    ensures r.None? <==> index !in sel && |sel| >= MaxSelected
  {
    var at := IndexOf(sel, index);
    if at >= 0 then Some(sel[..at] + sel[at + 1..])
    else if |sel| < MaxSelected then Some(sel + [index])
    else None
  }

  /** Splicing out the one occurrence of `sel[at]` removes exactly that value. */
  lemma SpliceMembership(sel: seq<nat>, at: nat)
    requires Distinct(sel) && at < |sel|
    ensures forall y :: y in sel[..at] + sel[at + 1..] <==> y in sel && y != sel[at]
  {
    var r := sel[..at] + sel[at + 1..];
    forall y ensures y in r <==> y in sel && y != sel[at] {
      if y in r {
        var t :| 0 <= t < |r| && r[t] == y;
        assert sel[if t < at then t else t + 1] == y;
      }
      if y in sel && y != sel[at] {
        var t :| 0 <= t < |sel| && sel[t] == y;
        assert r[if t < at then t else t - 1] == y;
      }
    }
  }

  /** On a selection without duplicates a successful toggle flips exactly `index`'s membership. */
  lemma ToggleFlipsMembership(sel: seq<nat>, index: nat)
    requires Distinct(sel)
    requires Toggle(sel, index).Some?
    ensures forall y :: y in Toggle(sel, index).value <==> (y in sel) != (y == index)
  {
    var at := IndexOf(sel, index);
    if at >= 0 {
      SpliceMembership(sel, at);
    }
  }

  /** Splicing one position out keeps a selection within bounds and free of duplicates. */
  lemma SpliceKeepsOk(sel: seq<nat>, at: nat, boardSize: nat)
    requires SelectionOk(sel, boardSize) && at < |sel|
    ensures SelectionOk(sel[..at] + sel[at + 1..], boardSize)
  {
    var r := sel[..at] + sel[at + 1..];
    forall a | 0 <= a < |r| ensures r[a] == sel[if a < at then a else a + 1] {
    }
  }

  /** Pushing a fresh in-range position onto a short selection keeps it well formed. */
  lemma PushKeepsOk(sel: seq<nat>, index: nat, boardSize: nat)
    requires SelectionOk(sel, boardSize) && |sel| < MaxSelected
    requires index !in sel && index < boardSize
    ensures SelectionOk(sel + [index], boardSize)
  {
    var r := sel + [index];
    forall a, b | 0 <= a < b < |r| ensures r[a] != r[b] {
      if b == |sel| {
        assert r[a] == sel[a];
      }
    }
  }

  /** Toggling keeps a selection within three distinct positions on the board. */
  lemma TogglePreservesOk(sel: seq<nat>, index: nat, boardSize: nat)
    requires SelectionOk(sel, boardSize)
    requires index < boardSize
    requires Toggle(sel, index).Some?
    ensures SelectionOk(Toggle(sel, index).value, boardSize)
  {
    var at := IndexOf(sel, index);
    if at >= 0 {
      SpliceKeepsOk(sel, at, boardSize);
    } else {
      PushKeepsOk(sel, index, boardSize);
    }
  }

  /** Clicking a fresh position twice gives back the selection it started from. */
  lemma ToggleTwice(sel: seq<nat>, index: nat)
    requires index !in sel
    requires |sel| < MaxSelected
    ensures Toggle(sel, index).Some?
    ensures Toggle(Toggle(sel, index).value, index) == Some(sel)
  {
    var once := sel + [index];
    assert IndexOf(once, index) == |sel| by {
      assert once[..|sel|] == sel;
    }
    assert once[..|sel|] + once[|sel| + 1..] == sel;
  }

  /**
   * `selectedIndices.sort((a, b) => b - a)` on three distinct positions: the same positions,
   * largest first.
   */
  function SortDescending(sel: seq<nat>): (r: seq<nat>)
    requires |sel| == 3 && Distinct(sel)
    ensures |r| == 3 && StrictlyDecreasing(r)
    ensures forall x :: x in r <==> x in sel
  {
    var a, b, c := sel[0], sel[1], sel[2];
    assert sel == [a, b, c];
    if a > b then
      if b > c then [a, b, c] else if a > c then [a, c, b] else [c, a, b]
    else
      if a > c then [b, a, c] else if b > c then [b, c, a] else [c, b, a]
  }
}
