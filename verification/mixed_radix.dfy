/** Mixed-radix addressing of joint assignments, the index the factor library
    uses to lay a factor's table out as a flat array. The library itself is
    not part of this model; which listed variable varies fastest is a
    parameter (`Convention`), and every result here holds for both. */
module MixedRadix {

  /** Which listed variable varies fastest as the flat offset grows. */
  datatype Convention = FirstFastest | LastFastest

  /** Number of joint assignments over variables with these cardinalities. */
  function Product(cards: seq<nat>): nat
    decreases |cards|
  {
    if |cards| == 0 then 1 else cards[0] * Product(cards[1..])
  }

  /** `digits` is an assignment: one state below each cardinality. */
  predicate InRange(digits: seq<nat>, cards: seq<nat>) {
    |digits| == |cards| && forall i :: 0 <= i < |digits| ==> digits[i] < cards[i]
  }

  function Reverse<T>(s: seq<T>): (r: seq<T>)
    ensures |r| == |s|
    ensures forall i :: 0 <= i < |s| ==> r[i] == s[|s| - 1 - i]
    decreases |s|
  {
    if |s| == 0 then [] else Reverse(s[1..]) + [s[0]]
  }

  lemma ReverseReverse<T>(s: seq<T>)
    ensures Reverse(Reverse(s)) == s
  {
  }

  lemma {:induction false} ProductSnoc(cards: seq<nat>, c: nat)
    ensures Product(cards + [c]) == Product(cards) * c
    decreases |cards|
  {
    if |cards| > 0 {
      assert (cards + [c])[1..] == cards[1..] + [c];
      ProductSnoc(cards[1..], c);
    }
  }

  lemma {:induction false} ProductReverse(cards: seq<nat>)
    ensures Product(Reverse(cards)) == Product(cards)
    decreases |cards|
  {
    if |cards| > 0 {
      ProductReverse(cards[1..]);
      assert Reverse(cards) == Reverse(cards[1..]) + [cards[0]];
      ProductSnoc(Reverse(cards[1..]), cards[0]);
    }
  }

  lemma ReverseInRange(digits: seq<nat>, cards: seq<nat>)
    requires InRange(digits, cards)
    ensures InRange(Reverse(digits), Reverse(cards))
  {
  }

  lemma DivMod(a: nat, c: nat, q: nat, r: nat)
    requires 0 <= r < c
    requires a == q * c + r
    ensures a / c == q && a % c == r
  {
    var q', r' := a / c, a % c;
    assert (q - q') * c == r' - r;
    ProductStrictlyBetween(q - q', c);
  }

  /** The only multiple of c strictly between -c and c is 0. */
  lemma ProductStrictlyBetween(m: int, c: int)
    requires c > 0 && -c < m * c < c
    ensures m == 0
  {
    MulMonotone(m, 1, c);
    MulMonotone(-1, m, c);
  }

  lemma MulMonotone(a: int, b: int, c: nat)
    ensures a >= b ==> a * c >= b * c
  {
  }

  /** A value below c * p has c > 0 and quotient below p. */
  lemma QuotientBelow(k: nat, c: nat, p: nat)
    requires k < c * p
    ensures c > 0 && k / c < p
  {
    assert c != 0;
    var q := k / c;
    assert k == q * c + k % c;
    MulMonotone(q, p, c);
  }

  /** Offset with the first digit least significant. */
  function OffsetFirstFastest(digits: seq<nat>, cards: seq<nat>): nat
    requires |digits| == |cards|
    decreases |digits|
  {
    if |digits| == 0 then 0
    else digits[0] + cards[0] * OffsetFirstFastest(digits[1..], cards[1..])
  }

  /** Assignment at an offset, first digit least significant. */
  function DigitsFirstFastest(k: nat, cards: seq<nat>): seq<nat>
    requires k < Product(cards)
    decreases |cards|
  {
    if |cards| == 0 then []
    else
      var c := cards[0];
      assert c > 0 && k / c < Product(cards[1..]) by {
        assert k < c * Product(cards[1..]);
        QuotientBelow(k, c, Product(cards[1..]));
      }
      [k % c] + DigitsFirstFastest(k / c, cards[1..])
  }

  lemma {:induction false} OffsetFirstFastestBound(digits: seq<nat>, cards: seq<nat>)
    requires InRange(digits, cards)
    ensures OffsetFirstFastest(digits, cards) < Product(cards)
    decreases |digits|
  {
    if |digits| > 0 {
      var c := cards[0];
      var rest := OffsetFirstFastest(digits[1..], cards[1..]);
      OffsetFirstFastestBound(digits[1..], cards[1..]);
      assert rest + 1 <= Product(cards[1..]);
      assert c * (rest + 1) <= c * Product(cards[1..]);
      assert digits[0] + c * rest < c * (rest + 1);
    }
  }

  lemma {:induction false} DigitsFirstFastestInRange(k: nat, cards: seq<nat>)
    requires k < Product(cards)
    ensures InRange(DigitsFirstFastest(k, cards), cards)
    decreases |cards|
  {
    if |cards| > 0 {
      var c := cards[0];
      QuotientBelow(k, c, Product(cards[1..]));
      DigitsFirstFastestInRange(k / c, cards[1..]);
      var d := DigitsFirstFastest(k, cards);
      assert d == [k % c] + DigitsFirstFastest(k / c, cards[1..]);
      assert d[0] < c;
    }
  }

  lemma {:induction false} OffsetOfDigitsFirstFastest(k: nat, cards: seq<nat>)
    requires k < Product(cards)
    ensures |DigitsFirstFastest(k, cards)| == |cards|
    ensures OffsetFirstFastest(DigitsFirstFastest(k, cards), cards) == k
    decreases |cards|
  {
    DigitsFirstFastestInRange(k, cards);
    if |cards| > 0 {
      var c := cards[0];
      QuotientBelow(k, c, Product(cards[1..]));
      var q, r := k / c, k % c;
      var d := DigitsFirstFastest(k, cards);
      OffsetOfDigitsFirstFastest(q, cards[1..]);
      assert d == [r] + DigitsFirstFastest(q, cards[1..]);
      assert d[1..] == DigitsFirstFastest(q, cards[1..]);
      assert OffsetFirstFastest(d[1..], cards[1..]) == q;
      assert OffsetFirstFastest(d, cards) == r + c * q;
      assert r + c * q == k;
    }
  }

  lemma {:induction false} DigitsOfOffsetFirstFastest(digits: seq<nat>, cards: seq<nat>)
    requires InRange(digits, cards)
    ensures OffsetFirstFastest(digits, cards) < Product(cards)
    ensures DigitsFirstFastest(OffsetFirstFastest(digits, cards), cards) == digits
    decreases |digits|
  {
    OffsetFirstFastestBound(digits, cards);
    if |digits| > 0 {
      var c := cards[0];
      var rest := OffsetFirstFastest(digits[1..], cards[1..]);
      var k := OffsetFirstFastest(digits, cards);
      DivMod(k, c, rest, digits[0]);
      DigitsOfOffsetFirstFastest(digits[1..], cards[1..]);
      assert [digits[0]] + digits[1..] == digits;
    }
  }

  /** Flat offset of an assignment under a convention. */
  function Offset(digits: seq<nat>, cards: seq<nat>, conv: Convention): nat
    requires |digits| == |cards|
  {
    match conv
    case FirstFastest => OffsetFirstFastest(digits, cards)
    case LastFastest => OffsetFirstFastest(Reverse(digits), Reverse(cards))
  }

  /** Assignment at a flat offset under a convention. */
  function Digits(k: nat, cards: seq<nat>, conv: Convention): seq<nat>
    requires k < Product(cards)
  {
    match conv
    case FirstFastest => DigitsFirstFastest(k, cards)
    case LastFastest =>
      ProductReverse(cards);
      Reverse(DigitsFirstFastest(k, Reverse(cards)))
  }

  /** Every offset names an assignment, and the offset of that assignment is
      the offset itself. */
  lemma OffsetOfDigits(k: nat, cards: seq<nat>, conv: Convention)
    requires k < Product(cards)
    ensures InRange(Digits(k, cards, conv), cards)
    ensures Offset(Digits(k, cards, conv), cards, conv) == k
  {
    match conv
    case FirstFastest =>
      DigitsFirstFastestInRange(k, cards);
      OffsetOfDigitsFirstFastest(k, cards);
    case LastFastest =>
      ProductReverse(cards);
      DigitsFirstFastestInRange(k, Reverse(cards));
      OffsetOfDigitsFirstFastest(k, Reverse(cards));
      ReverseReverse(cards);
      ReverseInRange(DigitsFirstFastest(k, Reverse(cards)), Reverse(cards));
      ReverseReverse(DigitsFirstFastest(k, Reverse(cards)));
  }

  /** Every assignment has an offset below the product, and decoding that
      offset gives the assignment back. */
  lemma DigitsOfOffset(digits: seq<nat>, cards: seq<nat>, conv: Convention)
    requires InRange(digits, cards)
    ensures Offset(digits, cards, conv) < Product(cards)
    ensures Digits(Offset(digits, cards, conv), cards, conv) == digits
  {
    match conv
    case FirstFastest =>
      DigitsOfOffsetFirstFastest(digits, cards);
    case LastFastest =>
      ReverseInRange(digits, cards);
      DigitsOfOffsetFirstFastest(Reverse(digits), Reverse(cards));
      ProductReverse(cards);
      ReverseReverse(digits);
  }

  /** Enumerating offsets 0 .. Product-1 visits every assignment exactly
      once: distinct offsets give distinct assignments, and each assignment
      is reached. */
  lemma EnumerationIsTotal(cards: seq<nat>, conv: Convention)
    ensures forall k1, k2 :: (0 <= k1 < Product(cards) && 0 <= k2 < Product(cards)
      && Digits(k1, cards, conv) == Digits(k2, cards, conv)) ==> k1 == k2
    ensures forall d :: InRange(d, cards) ==>
      Offset(d, cards, conv) < Product(cards) && Digits(Offset(d, cards, conv), cards, conv) == d
  {
    forall k1, k2 | 0 <= k1 < Product(cards) && 0 <= k2 < Product(cards)
      && Digits(k1, cards, conv) == Digits(k2, cards, conv)
      ensures k1 == k2
    {
      OffsetOfDigits(k1, cards, conv);
      OffsetOfDigits(k2, cards, conv);
    }
    forall d | InRange(d, cards)
      ensures Offset(d, cards, conv) < Product(cards) && Digits(Offset(d, cards, conv), cards, conv) == d
    {
      DigitsOfOffset(d, cards, conv);
    }
  }

  /** The offset, under convention `to`, of the assignment found at offset
      k under convention `from`. */
  function Recode(k: nat, cards: seq<nat>, from: Convention, to: Convention): (j: nat)
    requires k < Product(cards)
    ensures j < Product(cards)
  {
    OffsetOfDigits(k, cards, from);
    DigitsOfOffset(Digits(k, cards, from), cards, to);
    Offset(Digits(k, cards, from), cards, to)
  }

  /** Recoding back undoes a recoding, so `Recode` is a bijection of
      0 .. Product-1; between equal conventions it is the identity. */
  lemma RecodeBack(k: nat, cards: seq<nat>, from: Convention, to: Convention)
    requires k < Product(cards)
    ensures Recode(Recode(k, cards, from, to), cards, to, from) == k
    ensures from == to ==> Recode(k, cards, from, to) == k
  {
    var d := Digits(k, cards, from);
    OffsetOfDigits(k, cards, from);
    DigitsOfOffset(d, cards, to);
  }

  /** The declared order of a block's variables or its reverse. */
  function Regroup<T>(s: seq<T>, swap: bool): seq<T> {
    if swap then Reverse(s) else s
  }

  lemma RegroupInRange(digits: seq<nat>, cards: seq<nat>, swap: bool)
    requires InRange(digits, cards)
    ensures InRange(Regroup(digits, swap), Regroup(cards, swap))
  {
  }

  lemma RegroupTwice<T>(s: seq<T>, swap: bool)
    ensures Regroup(Regroup(s, swap), swap) == s
  {
    if swap { ReverseReverse(s); }
  }

  lemma RegroupProduct(cards: seq<nat>, swap: bool)
    ensures Product(Regroup(cards, swap)) == Product(cards)
  {
    if swap { ProductReverse(cards); }
  }

  /** The order in which the ordered index's `NextRight` steps through the
      assignments of its enumeration order: the last listed variable
      fastest, whatever the storage convention. The UAI writer relies on it
      to print tables in that format's order, and the latent-tree reader
      uses the same step to walk a table in declared order. */
  const NextRightWalk: Convention := LastFastest

  /** Where the k-th value read lands: the k-th assignment of the declared
      order under `NextRight`'s walk, at its offset in a table stored over
      the regrouped variable order under the storage convention. */
  function Target(k: nat, cards: seq<nat>, swap: bool, conv: Convention): nat
    requires k < Product(cards)
  {
    OffsetOfDigits(k, cards, NextRightWalk);
    RegroupInRange(Digits(k, cards, NextRightWalk), cards, swap);
    Offset(Regroup(Digits(k, cards, NextRightWalk), swap), Regroup(cards, swap), conv)
  }

  /** The inverse of `Target`: which declared-order position fills offset j. */
  function Source(j: nat, cards: seq<nat>, swap: bool, conv: Convention): nat
    requires j < Product(cards)
  {
    RegroupProduct(cards, swap);
    OffsetOfDigits(j, Regroup(cards, swap), conv);
    RegroupInRange(Digits(j, Regroup(cards, swap), conv), Regroup(cards, swap), swap);
    RegroupTwice(cards, swap);
    Offset(Regroup(Digits(j, Regroup(cards, swap), conv), swap), cards, NextRightWalk)
  }

  /** `Target` is a bijection of 0 .. Product-1 with inverse `Source`. */
  lemma TargetIsBijection(k: nat, cards: seq<nat>, swap: bool, conv: Convention)
    requires k < Product(cards)
    ensures Target(k, cards, swap, conv) < Product(cards)
    ensures Source(Target(k, cards, swap, conv), cards, swap, conv) == k
  {
    var d := Digits(k, cards, NextRightWalk);
    OffsetOfDigits(k, cards, NextRightWalk);
    RegroupInRange(d, cards, swap);
    RegroupProduct(cards, swap);
    DigitsOfOffset(Regroup(d, swap), Regroup(cards, swap), conv);
    RegroupTwice(d, swap);
    RegroupTwice(cards, swap);
  }

  lemma SourceIsInverse(j: nat, cards: seq<nat>, swap: bool, conv: Convention)
    requires j < Product(cards)
    ensures Source(j, cards, swap, conv) < Product(cards)
    ensures Target(Source(j, cards, swap, conv), cards, swap, conv) == j
  {
    var rc := Regroup(cards, swap);
    RegroupProduct(cards, swap);
    var e := Digits(j, rc, conv);
    OffsetOfDigits(j, rc, conv);
    RegroupInRange(e, rc, swap);
    RegroupTwice(cards, swap);
    DigitsOfOffset(Regroup(e, swap), cards, NextRightWalk);
    RegroupTwice(e, swap);
  }
}
