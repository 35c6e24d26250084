/** Building, shuffling and dealing the 81-card deck. */
module Deck {
  import opened Cards

  /** The attribute domains, in the order the deck builder walks them. */
  const Numbers: seq<Number> := [1, 2, 3]
  const Shapes: seq<Shape> := [Diamond, Oval, Squiggle]
  const Colors: seq<Color> := [Red, Green, Purple]
  const Shadings: seq<Shading> := [Solid, Striped, Empty]

  const DeckSize: nat := 81

  function ShapeOrd(s: Shape): nat {
    match s case Diamond => 0 case Oval => 1 case Squiggle => 2
  }

  function ColorOrd(c: Color): nat {
    match c case Red => 0 case Green => 1 case Purple => 2
  }

  function ShadingOrd(h: Shading): nat {
    match h case Solid => 0 case Striped => 1 case Empty => 2
  }

  /** Position of a card in the deck before shuffling (number, then shape, colour, shading). */
  function Position(c: Card): nat {
    27 * (c.number - 1) + 9 * ShapeOrd(c.shape) + 3 * ColorOrd(c.color) + ShadingOrd(c.shading)
  }

  /** Every card has its own position below 81, so the positions number the whole product. */
  lemma PositionInjective(a: Card, b: Card)
    ensures Position(a) < DeckSize
    ensures Position(a) == Position(b) ==> a == b
  {
  }

  /** The card built from the domains' `a`-th, `b`-th, `c`-th and `d`-th values. */
  lemma PositionOfProduct(a: nat, b: nat, c: nat, d: nat)
    requires a < 3 && b < 3 && c < 3 && d < 3
    ensures Position(Card(Numbers[a], Shapes[b], Colors[c], Shadings[d])) == 27 * a + 9 * b + 3 * c + d
  {
  }

  /** No card occurs twice. */
  ghost predicate NoRepeats(s: seq<Card>) {
    forall x :: multiset(s)[x] <= 1
  }

  /** Every one of the 81 possible cards occurs exactly once. */
  ghost predicate IsFullDeck(d: seq<Card>) {
    forall c: Card :: multiset(d)[c] == 1
  }

  /** In a sequence without equal elements each member has multiplicity one. */
  lemma {:induction false} DistinctMultiplicity<T>(s: seq<T>, x: T)
    requires forall i, j :: 0 <= i < j < |s| ==> s[i] != s[j]
    ensures multiset(s)[x] == if x in s then 1 else 0
  {
    if s != [] {
      var n := |s| - 1;
      assert s == s[..n] + [s[n]];
      DistinctMultiplicity(s[..n], x);
      if x == s[n] {
        assert x !in s[..n];
      }
    }
  }

  /** A deck laid out position by position holds every card exactly once. */
  lemma OrderedDeckIsFull(d: seq<Card>)
    requires |d| == DeckSize
    requires forall t :: 0 <= t < |d| ==> Position(d[t]) == t
    ensures IsFullDeck(d)
  {
    forall i, j | 0 <= i < j < |d| ensures d[i] != d[j] {
      assert Position(d[i]) != Position(d[j]);
    }
    forall c: Card ensures multiset(d)[c] == 1 {
      PositionInjective(c, d[Position(c)]);
      DistinctMultiplicity(d, c);
    }
  }

  /** A full deck has no repeats and exactly 81 cards. */
  lemma FullDeckFacts(d: seq<Card>)
    requires IsFullDeck(d)
    requires |d| == DeckSize
    ensures NoRepeats(d)
    ensures forall c: Card :: c in d
  {
    forall c: Card ensures c in d {
      assert multiset(d)[c] == 1;
    }
  }

  /** `createDeck`: the Cartesian product of the four domains, then shuffled with `picks`. */
  method CreateDeck(picks: seq<nat>) returns (deck: seq<Card>)
    requires |picks| == DeckSize
    requires forall i :: 0 <= i < |picks| ==> picks[i] <= i
    ensures |deck| == DeckSize
    ensures IsFullDeck(deck)
  {
    var ordered: seq<Card> := [];
    for a := 0 to 3
      invariant |ordered| == 27 * a
      invariant forall t :: 0 <= t < |ordered| ==> Position(ordered[t]) == t
    {
      for b := 0 to 3
        invariant |ordered| == 27 * a + 9 * b
        invariant forall t :: 0 <= t < |ordered| ==> Position(ordered[t]) == t
      {
        for c := 0 to 3
          invariant |ordered| == 27 * a + 9 * b + 3 * c
          invariant forall t :: 0 <= t < |ordered| ==> Position(ordered[t]) == t
        {
          for d := 0 to 3
            invariant |ordered| == 27 * a + 9 * b + 3 * c + d
            invariant forall t :: 0 <= t < |ordered| ==> Position(ordered[t]) == t
          {
            var card := Card(Numbers[a], Shapes[b], Colors[c], Shadings[d]);
            PositionOfProduct(a, b, c, d);
            ordered := ordered + [card];
          }
        }
      }
    }
    OrderedDeckIsFull(ordered);
    deck := ShuffleArray(ordered, picks);
  }

  /** `s` with the elements at `i` and `j` exchanged. */
  function Swap<T>(s: seq<T>, i: nat, j: nat): (r: seq<T>)
    requires i < |s| && j < |s|
    ensures |r| == |s|
  {
    s[i := s[j]][j := s[i]]
  }

  /**
   * Fisher-Yates from index `i` down to 1: swap position `i` with position `picks[i]`,
   * then continue one index lower.
   */
  function FisherYates<T>(s: seq<T>, picks: seq<nat>, i: int): (r: seq<T>)
    requires i < |s| && i < |picks|
    requires forall k :: 0 <= k < |picks| ==> picks[k] <= k
    ensures |r| == |s|
    decreases i
  {
    if i <= 0 then s else FisherYates(Swap(s, i, picks[i]), picks, i - 1)
  }

  /** Fisher-Yates only reorders: the result is a permutation of its input. */
  lemma {:induction false} FisherYatesPermutes<T>(s: seq<T>, picks: seq<nat>, i: int)
    requires i < |s| && i < |picks|
    requires forall k :: 0 <= k < |picks| ==> picks[k] <= k
    ensures multiset(FisherYates(s, picks, i)) == multiset(s)
    decreases i
  {
    if i > 0 {
      var next := Swap(s, i, picks[i]);
      FisherYatesPermutes(next, picks, i - 1);
      assert multiset(next) == multiset(s);
      assert FisherYates(s, picks, i) == FisherYates(next, picks, i - 1);
    }
  }

  /**
   * `shuffleArray`: copies the input into a fresh array and shuffles the copy in place.
   * `picks[i]` stands for the random index `Math.floor(Math.random() * (i + 1))`.
   */
  method ShuffleArray<T>(input: seq<T>, picks: seq<nat>) returns (shuffled: seq<T>)
    requires |picks| == |input|
    requires forall i :: 0 <= i < |picks| ==> picks[i] <= i
    ensures shuffled == FisherYates(input, picks, |input| - 1)
    ensures |shuffled| == |input| && multiset(shuffled) == multiset(input)
  {
    var a := new T[|input|](k requires 0 <= k < |input| => input[k]);
    assert a[..] == input;
    var i := |input| - 1;
    ghost var goal := FisherYates(input, picks, |input| - 1);
    while i > 0
      invariant -1 <= i < a.Length == |input|
      invariant FisherYates(a[..], picks, i) == goal
    {
      var j := picks[i];
      ghost var next := Swap(a[..], i, j);
      assert FisherYates(a[..], picks, i) == FisherYates(next, picks, i - 1);
      a[i], a[j] := a[j], a[i];
      assert a[..] == next;
      i := i - 1;
    }
    shuffled := a[..];
    FisherYatesPermutes(input, picks, |input| - 1);
  }

  /**
   * How many cards `dealCards(room, count)` moves: the loop stops as soon as it has moved
   * `count` cards or the deck is empty, so this is the largest number within both bounds.
   */
  function Dealt(count: int, available: nat): (m: nat)
    ensures m <= available && (m == 0 || m <= count)
    ensures m == available || m >= count
  {
    if count <= 0 then 0 else if count < available then count else available
  }

  /** The `m` cards popped from the deck's end, in the order they are popped. */
  function Drawn<T>(deck: seq<T>, m: nat): (r: seq<T>)
    requires m <= |deck|
    ensures |r| == m
    ensures forall t :: 0 <= t < m ==> r[t] == deck[|deck| - 1 - t]
  {
    if m == 0 then [] else Drawn(deck, m - 1) + [deck[|deck| - m]]
  }

  /** Drawing one more card adds the next card from the end. */
  lemma DrawnOneMore<T>(deck: seq<T>, m: nat)
    requires 0 < m <= |deck|
    ensures multiset(Drawn(deck, m)) == multiset(Drawn(deck, m - 1)) + multiset{deck[|deck| - m]}
  {
    assert Drawn(deck, m) == Drawn(deck, m - 1) + [deck[|deck| - m]];
  }

  /** A suffix is its first card plus the rest. */
  lemma SuffixSplit<T>(deck: seq<T>, n: nat)
    requires n < |deck|
    ensures multiset(deck[n..]) == multiset(deck[n + 1..]) + multiset{deck[n]}
  {
    assert deck[n..] == [deck[n]] + deck[n + 1..];
  }

  /** The drawn cards are the last `m` cards of the deck, reversed: the same cards. */
  lemma {:induction false} DrawnIsSuffix<T>(deck: seq<T>, m: nat)
    requires m <= |deck|
    ensures multiset(Drawn(deck, m)) == multiset(deck[|deck| - m..])
  {
    if m == 0 {
      assert deck[|deck|..] == [];
    } else {
      DrawnIsSuffix(deck, m - 1);
      DrawnOneMore(deck, m);
      SuffixSplit(deck, |deck| - m);
    }
  }

  /** Dealing `m` cards moves them from deck to board: together the two hold the same cards. */
  lemma DealtConserves<T>(deck: seq<T>, board: seq<T>, m: nat)
    requires m <= |deck|
    ensures multiset(deck[..|deck| - m]) + multiset(board + Drawn(deck, m)) == multiset(deck) + multiset(board)
  {
    DrawnIsSuffix(deck, m);
    assert deck == deck[..|deck| - m] + deck[|deck| - m..];
  }

  /**
   * `dealCards`: pop from the deck's end and push onto the board's end, `count` times or
   * until the deck is empty.
   */
  method DealCards(deck: seq<Card>, board: seq<Card>, count: int) returns (deck': seq<Card>, board': seq<Card>)
    ensures deck' == deck[..|deck| - Dealt(count, |deck|)]
    ensures board' == board + Drawn(deck, Dealt(count, |deck|))
    ensures multiset(deck') + multiset(board') == multiset(deck) + multiset(board)
  {
    deck', board' := deck, board;
    var i := 0;
    while i < count && |deck'| > 0
      invariant 0 <= i <= Dealt(count, |deck|)
      invariant deck' == deck[..|deck| - i]
      invariant board' == board + Drawn(deck, i)
    {
      var top := deck'[|deck'| - 1];
      assert top == deck[|deck| - (i + 1)];
      assert deck'[..|deck'| - 1] == deck[..|deck| - (i + 1)];
      assert board' + [top] == board + (Drawn(deck, i) + [top]);
      board' := board' + [top];
      deck' := deck'[..|deck'| - 1];
      i := i + 1;
    }
    DealtConserves(deck, board, i);
  }
}
