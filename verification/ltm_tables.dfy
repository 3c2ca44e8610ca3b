/** The table arrangement of the latent-tree BIF reader
    (cmd/convert/convert.go:239-250). A probability block lists its values
    with the variables in declared order (child, then parent); the factor
    keeps its variables in ascending id order, so a two-variable table is
    scattered through the mixed-radix index into that order. Values are kept
    as the file's tokens. */
module LtmTables {
  import opened Results
  import opened Registry
  import opened MixedRadix

  /** Why reading a latent-tree BIF file fails. */
  datatype ParseError =
    | Truncated                    // a block runs past the end of the stream
    | UnknownName(name: string)    // a probability block names no known variable
    | BadCardinality(token: string)
    | TableOverrun                 // more values than joint assignments: the index has ended
    | TableOutOfRange              // a value's target offset is past the table

  /** What a table cell holds before a value is scattered into it: the zero
      of Go's freshly made float slice. */
  const Unfilled: string := "0"

  function Blanks(n: nat): (s: seq<string>)
    ensures |s| == n
    ensures forall i :: 0 <= i < n ==> s[i] == Unfilled
  {
    if n == 0 then [] else Blanks(n - 1) + [Unfilled]
  }

  /** The offsets the ordered index of the pair visits while the values are
      read: the k-th value of the declared order belongs at the k-th. */
  function Order(cards: seq<nat>, swap: bool, conv: Convention): (order: seq<nat>)
    ensures |order| == Product(cards)
    ensures forall k :: 0 <= k < |order| ==> order[k] == Target(k, cards, swap, conv)
  {
    seq(Product(cards), k requires 0 <= k < Product(cards) => Target(k, cards, swap, conv))
  }

  /** No offset is visited twice. */
  ghost predicate Distinct(order: seq<nat>) {
    forall s, t :: 0 <= s < t < |order| ==> order[s] != order[t]
  }

  /** The index visits each offset of the table exactly once. */
  lemma OrderIsPermutation(cards: seq<nat>, swap: bool, conv: Convention)
    ensures Distinct(Order(cards, swap, conv))
    ensures forall k :: 0 <= k < Product(cards) ==> Order(cards, swap, conv)[k] < Product(cards)
  {
    var order := Order(cards, swap, conv);
    forall k | 0 <= k < Product(cards) ensures order[k] < Product(cards) {
      TargetIsBijection(k, cards, swap, conv);
    }
    forall s, t | 0 <= s < t < |order| ensures order[s] != order[t] {
      TargetIsBijection(s, cards, swap, conv);
      TargetIsBijection(t, cards, swap, conv);
    }
  }

  /** Places `values[k]`, for k from the given one on, at the offset the
      index visits k-th. */
  function Scatter(values: seq<string>, k: nat, acc: seq<string>, order: seq<nat>)
    : (r: Result<seq<string>, ParseError>)
    requires k <= |values| && |acc| == |values|
    ensures r.Success? ==> |r.value| == |values|
    decreases |values| - k
  {
    if k == |values| then Success(acc)
    else if k >= |order| then Failure(TableOverrun)
    else if order[k] >= |acc| then Failure(TableOutOfRange)
    else Scatter(values, k + 1, acc[order[k] := values[k]], order)
  }

  /** After k values: each sits at its offset, every cell not yet visited
      still holds the placeholder, and the row is the values so far plus
      placeholders. */
  ghost predicate Placed(values: seq<string>, k: nat, acc: seq<string>, order: seq<nat>) {
    && k <= |values| && |acc| == |values| && k <= |order|
    && (forall t :: 0 <= t < k ==> order[t] < |acc| && acc[order[t]] == values[t])
    && (forall j :: 0 <= j < |acc| && j !in order[..k] ==> acc[j] == Unfilled)
    && multiset(acc) == multiset(values[..k]) + multiset(Blanks(|values| - k))
  }

  lemma MultisetOfUpdate(acc: seq<string>, p: nat, v: string)
    requires p < |acc|
    ensures multiset(acc[p := v]) == multiset(acc) - multiset{acc[p]} + multiset{v}
  {
  }

  lemma ScatterMultiset(values: seq<string>, k: nat, acc: seq<string>, p: nat)
    requires k < |values| && |acc| == |values| && p < |acc| && acc[p] == Unfilled
    requires multiset(acc) == multiset(values[..k]) + multiset(Blanks(|values| - k))
    ensures multiset(acc[p := values[k]]) == multiset(values[..k + 1]) + multiset(Blanks(|values| - (k + 1)))
  {
    MultisetOfUpdate(acc, p, values[k]);
    assert values[..k + 1] == values[..k] + [values[k]];
    assert Blanks(|values| - k) == Blanks(|values| - k - 1) + [Unfilled];
  }

  lemma PlaceOne(values: seq<string>, k: nat, acc: seq<string>, order: seq<nat>)
    requires Placed(values, k, acc, order) && Distinct(order)
    requires k < |values| && k < |order| && order[k] < |acc|
    ensures Placed(values, k + 1, acc[order[k] := values[k]], order)
  {
    var p := order[k];
    var next := acc[p := values[k]];
    assert order[..k + 1] == order[..k] + [p];
    assert p !in order[..k];
    forall t | 0 <= t < k + 1 ensures order[t] < |next| && next[order[t]] == values[t] {
      if t < k {
        assert order[t] != p;
      }
    }
    ScatterMultiset(values, k, acc, p);
  }

  lemma {:induction false} ScatterKeepsPlaced(values: seq<string>, k: nat, acc: seq<string>, order: seq<nat>)
    requires Placed(values, k, acc, order) && Distinct(order)
    ensures var r := Scatter(values, k, acc, order);
      r.Success? ==> Placed(values, |values|, r.value, order)
    decreases |values| - k
  {
    if k < |values| && k < |order| && order[k] < |acc| {
      PlaceOne(values, k, acc, order);
      ScatterKeepsPlaced(values, k + 1, acc[order[k] := values[k]], order);
    }
  }

  /** With exactly one offset per value, each inside the row, every value
      finds its cell. */
  lemma {:induction false} ScatterSucceeds(values: seq<string>, k: nat, acc: seq<string>, order: seq<nat>)
    requires k <= |values| && |acc| == |values| && |values| == |order|
    requires forall t :: 0 <= t < |order| ==> order[t] < |values|
    ensures Scatter(values, k, acc, order).Success?
    decreases |values| - k
  {
    if k < |values| {
      ScatterSucceeds(values, k + 1, acc[order[k] := values[k]], order);
    }
  }

  /** With more values than offsets the index ends before the values do,
      which the model stops at. */
  lemma {:induction false} ScatterOverruns(values: seq<string>, k: nat, acc: seq<string>, order: seq<nat>)
    requires k <= |order| < |values| && |acc| == |values|
    requires forall t :: 0 <= t < |order| ==> order[t] < |values|
    ensures Scatter(values, k, acc, order).Failure?
    decreases |values| - k
  {
    if k < |order| {
      ScatterOverruns(values, k + 1, acc[order[k] := values[k]], order);
    }
  }

  /** The two-variable arrangement: value k, read in declared order, goes to
      the offset of its assignment in the regrouped (canonical) order. */
  function Arrange(values: seq<string>, cards: seq<nat>, swap: bool, conv: Convention)
    : (r: Result<seq<string>, ParseError>)
    ensures r.Success? ==> |r.value| == |values|
    // a table of exactly Product(cards) values is always accepted
    ensures |values| == Product(cards) ==> r.Success?
    // more values than assignments stop where the index ends
    ensures |values| > Product(cards) ==> r.Failure?
  {
    var order := Order(cards, swap, conv);
    OrderIsPermutation(cards, swap, conv);
    assert |values| == Product(cards) ==> Scatter(values, 0, Blanks(|values|), order).Success? by {
      if |values| == Product(cards) {
        ScatterSucceeds(values, 0, Blanks(|values|), order);
      }
    }
    assert |values| > Product(cards) ==> Scatter(values, 0, Blanks(|values|), order).Failure? by {
      if |values| > Product(cards) {
        ScatterOverruns(values, 0, Blanks(|values|), order);
      }
    }
    Scatter(values, 0, Blanks(|values|), order)
  }

  /** Every value lands at its own target, so the arranged table is a
      permutation of the values read. */
  lemma ArrangePlaces(values: seq<string>, cards: seq<nat>, swap: bool, conv: Convention)
    ensures var r := Arrange(values, cards, swap, conv);
      r.Success? ==> multiset(r.value) == multiset(values)
    ensures var r := Arrange(values, cards, swap, conv);
      r.Success? ==> forall k :: 0 <= k < |values| ==>
        k < Product(cards) && Target(k, cards, swap, conv) < |values|
        && r.value[Target(k, cards, swap, conv)] == values[k]
  {
    var order := Order(cards, swap, conv);
    var r := Scatter(values, 0, Blanks(|values|), order);
    assert Arrange(values, cards, swap, conv) == r;
    assert values[..0] == [];
    assert Placed(values, 0, Blanks(|values|), order);
    OrderIsPermutation(cards, swap, conv);
    ScatterKeepsPlaced(values, 0, Blanks(|values|), order);
    if r.Success? {
      assert values[..|values|] == values;
      forall k | 0 <= k < |values|
        ensures k < Product(cards) && Target(k, cards, swap, conv) < |values|
          && r.value[Target(k, cards, swap, conv)] == values[k]
      {
        assert order[k] == Target(k, cards, swap, conv);
      }
    }
  }

  /** The factor of a block: the child alone, or the child and its parent in
      ascending id order with the table rearranged into that order. */
  function MakeFactor(child: Var, parent: Option<Var>, read: seq<string>, conv: Convention)
    : (r: Result<Factor<string>, ParseError>)
    ensures parent.None? ==> r == Success(Factor([child], read))
    // a two-variable table of the right size is always accepted
    ensures parent.Some? && |read| == child.card * parent.value.card ==> r.Success?
  {
    match parent
    case None => Success(Factor([child], read))
    case Some(p) =>
      var clq := AddVar([child], p);
      AddToSingleton(child, p);
      if |clq| == 1 then Success(Factor(clq, read))
      else
        var swap := p.id < child.id;
        assert clq == (if swap then [p, child] else [child, p]);
        ProductOfPair(child.card, p.card);
        var arranged :- Arrange(read, [child.card, p.card], swap, conv);
        Success(Factor(clq, arranged))
  }

  /** A factor has the child and at most the parent, in ascending id
      order, and its table is a permutation of the values read, in file
      order when the child stands alone. */
  lemma MakeFactorShape(child: Var, parent: Option<Var>, read: seq<string>, conv: Convention)
    ensures var r := MakeFactor(child, parent, read, conv);
      r.Success? ==> 1 <= |r.value.scope| <= 2 && Ascending(r.value.scope) && child in r.value.scope
    ensures var r := MakeFactor(child, parent, read, conv);
      r.Success? ==> forall v :: v in r.value.scope ==> v == child || Some(v) == parent
    ensures var r := MakeFactor(child, parent, read, conv);
      r.Success? ==> |r.value.values| == |read| && multiset(r.value.values) == multiset(read)
    ensures var r := MakeFactor(child, parent, read, conv);
      r.Success? && |r.value.scope| == 1 ==> r.value.values == read
  {
    if parent.Some? {
      var p := parent.value;
      AddToSingleton(child, p);
      if p.id != child.id {
        ArrangePlaces(read, [child.card, p.card], p.id < child.id, conv);
      }
    }
  }

  lemma ProductOfPair(a: nat, b: nat)
    ensures Product([a, b]) == a * b
  {
    assert [a, b][1..] == [b];
    assert [b][1..] == [];
    assert Product([b]) == b;
    assert Product([a, b]) == a * Product([b]);
  }

  /** The declared order of a two-variable block and the canonical one
      differ exactly when the parent's id is the smaller. */
  lemma CanonicalOrder(child: Var, parent: Var)
    requires child.id != parent.id
    ensures AddVar([child], parent) == Regroup([child, parent], parent.id < child.id)
  {
    AddToSingleton(child, parent);
  }

  /** Where value k of a two-variable table lands. `NextRight` walks the
      declared pair (child of cardinality a, parent of cardinality b) with
      the parent fastest, so value k is for child state k / b and parent
      state k % b. It is stored in place when the storage order agrees with
      that walk. Otherwise the table is transposed: the storage order runs
      parent-fastest over the canonical pair, and the two disagree either
      because the pair was swapped or because of the convention. */
  lemma PairTarget(k: nat, a: nat, b: nat, swap: bool, conv: Convention)
    requires k < a * b
    ensures k < Product([a, b])
    ensures Target(k, [a, b], swap, conv) == PairPlace(k, a, b, swap, conv)
  {
    ProductOfPair(a, b);
    PairWalk(k, a, b);
    var q, r := k / b, k % b;
    assert k == q * b + r;
    ReversePair(q, r);
    ReversePair(a, b);
    match conv
    case FirstFastest =>
      if swap {
        PairOffset(r, q, b, a);
      } else {
        PairOffset(q, r, a, b);
      }
    case LastFastest =>
      if swap {
        ReversePair(r, q);
        ReversePair(b, a);
        PairOffset(q, r, a, b);
      } else {
        PairOffset(r, q, b, a);
      }
  }

  /** The assignment `NextRight` reaches k-th over a pair is
      (k div b, k mod b): the second variable steps fastest. */
  lemma PairWalk(k: nat, a: nat, b: nat)
    requires k < a * b
    ensures k < Product([a, b])
    ensures Digits(k, [a, b], NextRightWalk) == [k / b, k % b]
  {
    ProductOfPair(a, b);
    ReversePair(a, b);
    PairDigits(k, b, a);
    ReversePair(k % b, k / b);
  }

  /** The assignment at offset k of a pair is (k mod a, k div a) when the
      first variable steps fastest. */
  lemma PairDigits(k: nat, a: nat, b: nat)
    requires k < a * b
    ensures k < Product([a, b])
    ensures Digits(k, [a, b], FirstFastest) == [k % a, k / a]
  {
    ProductOfPair(a, b);
    QuotientBelow(k, a, b);
    var q := k / a;
    assert [a, b][1..] == [b];
    assert DigitsFirstFastest(q, [b]) == [q] by {
      assert [b][1..] == [];
      DivMod(q, b, 0, q);
      assert DigitsFirstFastest(q, [b]) == [q % b] + DigitsFirstFastest(q / b, []);
    }
    assert DigitsFirstFastest(k, [a, b]) == [k % a] + DigitsFirstFastest(q, [b]);
  }

  lemma PairOffset(x: nat, y: nat, a: nat, b: nat)
    ensures OffsetFirstFastest([x, y], [a, b]) == x + a * y
  {
    assert [x, y][1..] == [y];
    assert [a, b][1..] == [b];
    assert OffsetFirstFastest([y], [b]) == y by {
      assert [y][1..] == [] && [b][1..] == [];
    }
  }

  lemma ReversePair<T>(x: T, y: T)
    ensures Reverse([x, y]) == [y, x]
  {
  }

  /** The place of value k of a pair: in place, or transposed. */
  function PairPlace(k: nat, a: nat, b: nat, swap: bool, conv: Convention): nat
    requires k < a * b
  {
    if swap == (conv == NextRightWalk) then k / b + a * (k % b) else k
  }

  /** A full two-variable table is arranged, and value k is stored at the
      place `PairTarget` gives it; when the storage order agrees with the
      walk the table is kept as read. */
  lemma PairTable(v: seq<string>, a: nat, b: nat, swap: bool, conv: Convention)
    requires |v| == a * b
    ensures Arrange(v, [a, b], swap, conv).Success?
    ensures var t := Arrange(v, [a, b], swap, conv).value;
      forall k :: 0 <= k < |v| ==> PairPlace(k, a, b, swap, conv) < |t| && t[PairPlace(k, a, b, swap, conv)] == v[k]
    ensures swap != (conv == NextRightWalk) ==> Arrange(v, [a, b], swap, conv).value == v
  {
    ProductOfPair(a, b);
    ArrangePlaces(v, [a, b], swap, conv);
    var t := Arrange(v, [a, b], swap, conv).value;
    forall k | 0 <= k < |v|
      ensures PairPlace(k, a, b, swap, conv) < |t| && t[PairPlace(k, a, b, swap, conv)] == v[k]
    {
      PairTarget(k, a, b, swap, conv);
    }
    if swap != (conv == NextRightWalk) {
      assert forall k :: 0 <= k < |v| ==> PairPlace(k, a, b, swap, conv) == k;
    }
  }
}
