/** Cards of the game of Set and the rule that decides whether three cards form a set. */
module Cards {

  /** The card's count of symbols: 1, 2 or 3. */
  type Number = n: int | 1 <= n <= 3 witness 1

  datatype Shape = Diamond | Oval | Squiggle
  datatype Color = Red | Green | Purple
  datatype Shading = Solid | Striped | Empty

  /** A card is an immutable value with four three-valued attributes. */
  datatype Card = Card(number: Number, shape: Shape, color: Color, shading: Shading)

  /** The four attributes the set rule checks, in the order the server checks them. */
  datatype Attribute = NumberAttr | ShapeAttr | ColorAttr | ShadingAttr

  /** `values.every(v => v === values[0])` on three values. */
  predicate AllSame<T(==)>(a: T, b: T, c: T) {
    b == a && c == a
  }

  /** `new Set(values).size === 3` on three values. */
  predicate AllDifferent<T(==)>(a: T, b: T, c: T) {
    |{a, b, c}| == 3
  }

  /** Three values are pairwise distinct exactly when the set of them has three elements. */
  lemma AllDifferentIff<T>(a: T, b: T, c: T)
    ensures AllDifferent(a, b, c) <==> a != b && b != c && a != c
  {
    if a == b {
      assert {a, b, c} == {a, c};
    } else if b == c {
      assert {a, b, c} == {a, b};
    } else if a == c {
      assert {a, b, c} == {a, b};
    } else {
      assert {a, b, c} == {a} + {b} + {c};
      assert |{a} + {b}| == 2;
    }
  }

  predicate SameOrDifferent<T(==)>(a: T, b: T, c: T) {
    AllSame(a, b, c) || AllDifferent(a, b, c)
  }

  /** The check of one attribute over exactly three cards. */
  predicate AttributeOk(cards: seq<Card>, attr: Attribute)
    requires |cards| == 3
  {
    match attr
    case NumberAttr => SameOrDifferent(cards[0].number, cards[1].number, cards[2].number)
    case ShapeAttr => SameOrDifferent(cards[0].shape, cards[1].shape, cards[2].shape)
    case ColorAttr => SameOrDifferent(cards[0].color, cards[1].color, cards[2].color)
    case ShadingAttr => SameOrDifferent(cards[0].shading, cards[1].shading, cards[2].shading)
  }

  /** `isValidSet`: anything but three cards fails; otherwise every attribute must pass. */
  predicate IsValidSet(cards: seq<Card>) {
    |cards| == 3 && forall attr: Attribute :: AttributeOk(cards, attr)
  }

  /** The rule written out on values: all equal or pairwise distinct, for each attribute. */
  predicate Agrees<T(==)>(a: T, b: T, c: T) {
    (a == b && b == c) || (a != b && b != c && a != c)
  }

  /** `IsValidSet` is exactly the textbook rule, attribute by attribute. */
  lemma IsValidSetIff(cards: seq<Card>)
    ensures IsValidSet(cards) <==>
      |cards| == 3 &&
      Agrees(cards[0].number, cards[1].number, cards[2].number) &&
      Agrees(cards[0].shape, cards[1].shape, cards[2].shape) &&
      Agrees(cards[0].color, cards[1].color, cards[2].color) &&
      Agrees(cards[0].shading, cards[1].shading, cards[2].shading)
  {
    if |cards| == 3 {
      var a, b, c := cards[0], cards[1], cards[2];
      AllDifferentIff(a.number, b.number, c.number);
      AllDifferentIff(a.shape, b.shape, c.shape);
      AllDifferentIff(a.color, b.color, c.color);
      AllDifferentIff(a.shading, b.shading, c.shading);
      assert AttributeOk(cards, NumberAttr) <==> Agrees(a.number, b.number, c.number);
      assert AttributeOk(cards, ShapeAttr) <==> Agrees(a.shape, b.shape, c.shape);
      assert AttributeOk(cards, ColorAttr) <==> Agrees(a.color, b.color, c.color);
      assert AttributeOk(cards, ShadingAttr) <==> Agrees(a.shading, b.shading, c.shading);
    }
  }

  /** Three values of which exactly two are distinct are neither all equal nor all distinct. */
  lemma TwoValuesDisagree<T>(x: T, y: T, z: T)
    requires |{x, y, z}| == 2
    ensures !Agrees(x, y, z)
  {
    AllDifferentIff(x, y, z);
  }

  /** Any attribute on which the three cards take exactly two values makes the triple fail. */
  lemma TwoAndOneFails(a: Card, b: Card, c: Card)
    requires |{a.number, b.number, c.number}| == 2 ||
             |{a.shape, b.shape, c.shape}| == 2 ||
             |{a.color, b.color, c.color}| == 2 ||
             |{a.shading, b.shading, c.shading}| == 2
    ensures !IsValidSet([a, b, c])
  {
    IsValidSetIff([a, b, c]);
    if |{a.number, b.number, c.number}| == 2 {
      TwoValuesDisagree(a.number, b.number, c.number);
    } else if |{a.shape, b.shape, c.shape}| == 2 {
      TwoValuesDisagree(a.shape, b.shape, c.shape);
    } else if |{a.color, b.color, c.color}| == 2 {
      TwoValuesDisagree(a.color, b.color, c.color);
    } else {
      TwoValuesDisagree(a.shading, b.shading, c.shading);
    }
  }

  /** Whether three cards form a set does not depend on the order they were selected in. */
  lemma IsValidSetOrderFree(a: Card, b: Card, c: Card)
    ensures IsValidSet([a, b, c]) == IsValidSet([b, a, c])
    ensures IsValidSet([a, b, c]) == IsValidSet([a, c, b])
    ensures IsValidSet([a, b, c]) == IsValidSet([c, b, a])
  {
    IsValidSetIff([a, b, c]);
    IsValidSetIff([b, a, c]);
    IsValidSetIff([a, c, b]);
    IsValidSetIff([c, b, a]);
  }
}
