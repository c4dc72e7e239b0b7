/**
 * The deck encoding of src/deck.rs: a capped multiset of catalog indices kept as two
 * parallel vectors, `cards` (distinct indices) and `counts` (their copies, `_copies` in
 * the source). The datatype `Entries` is the value of a deck and carries the pure
 * specification of every operation; the class `Deck` holds the two vectors and updates
 * them in place, each method proved equal to its specification.
 *
 * Randomness is an oracle: a roll, a crossover point or a sequence of draws is passed in.
 */
module Decks {
  import Generics

  /** Constants of src/globals.rs. */
  const POPULATION_SIZE: nat := 2048
  const PP_CURVE_SIZE: nat := 8
  const DECK_SIZE: nat := 40
  const MAX_CARD_COPIES: nat := 3

  function MinNat(n: nat, m: nat): (r: nat)
    ensures r <= n && r <= m && (r == n || r == m)
  {
    if n < m then n else m
  }

  /** Total of a vector of counts (`iter().sum()`). */
  function Sum(xs: seq<nat>): nat
  {
    if xs == [] then 0 else xs[0] + Sum(xs[1..])
  }

  /** Counts between 1 and MAX_CARD_COPIES add up to between one and MAX_CARD_COPIES per entry. */
  lemma {:induction false} SumBounds(xs: seq<nat>)
    ensures (forall i :: 0 <= i < |xs| ==> 1 <= xs[i] <= MAX_CARD_COPIES) ==> |xs| <= Sum(xs) <= MAX_CARD_COPIES * |xs|
  {
    if xs != [] {
      SumBounds(xs[1..]);
    }
  }

  lemma {:induction false} SumAppend(a: seq<nat>, b: seq<nat>)
    ensures Sum(a + b) == Sum(a) + Sum(b)
  {
    if a != [] {
      assert (a + b)[1..] == a[1..] + b;
      SumAppend(a[1..], b);
    } else {
      assert a + b == b;
    }
  }

  lemma SumSingle(x: nat)
    ensures Sum([x]) == x
  {
    assert [x][1..] == [];
  }

  lemma SumUpdate(xs: seq<nat>, i: nat, v: nat)
    requires i < |xs|
    ensures Sum(xs[i := v]) + xs[i] == Sum(xs) + v
  {
    assert xs == xs[..i] + [xs[i]] + xs[i + 1..];
    assert xs[i := v] == xs[..i] + [v] + xs[i + 1..];
    SumAppend(xs[..i] + [xs[i]], xs[i + 1..]);
    SumAppend(xs[..i], [xs[i]]);
    SumAppend(xs[..i] + [v], xs[i + 1..]);
    SumAppend(xs[..i], [v]);
    SumSingle(xs[i]);
    SumSingle(v);
  }

  lemma SumDelete(xs: seq<nat>, i: nat)
    requires i < |xs|
    ensures Sum(xs[..i] + xs[i + 1..]) + xs[i] == Sum(xs)
  {
    var a, b := xs[..i], xs[i + 1..];
    var c := [xs[i]] + b;
    assert xs == a + c;
    SumAppend(a, c);
    assert c[1..] == b;
    SumAppend(a, b);
  }

  lemma {:induction false} SumZeros(n: nat)
    ensures Sum(seq(n, _ => 0)) == 0
  {
    if n > 0 {
      assert seq(n, _ => 0)[1..] == seq(n - 1, _ => 0);
      SumZeros(n - 1);
    }
  }

  lemma SumPrefixSnoc(xs: seq<nat>, j: nat)
    requires j < |xs|
    ensures Sum(xs[..j + 1]) == Sum(xs[..j]) + xs[j]
  {
    assert xs[..j + 1] == xs[..j] + [xs[j]];
    SumAppend(xs[..j], [xs[j]]);
    SumSingle(xs[j]);
  }

  /** `iter().position(|&n| n == x)`: the first index holding `x`, or `|xs|`. */
  function Position<T(==)>(xs: seq<T>, x: T): (i: nat)
    ensures i <= |xs|
    ensures i < |xs| ==> xs[i] == x
    ensures forall j :: 0 <= j < i ==> xs[j] != x
  {
    if xs == [] then 0
    else if xs[0] == x then 0
    else 1 + Position(xs[1..], x)
  }

  /** `n` copies of `card`, in a row. */
  function Repeat(card: nat, n: nat): (xs: seq<nat>)
    ensures |xs| == n && forall i :: 0 <= i < n ==> xs[i] == card
  {
    seq(n, _ => card)
  }

  /** The pp bucket a card of cost `cost` falls into (0-based, after clipping to 1..8). */
  function Bucket(cost: nat): (b: nat)
    ensures b < PP_CURVE_SIZE
    ensures cost == 0 ==> b == 0
    ensures PP_CURVE_SIZE < cost ==> b == PP_CURVE_SIZE - 1
    ensures 1 <= cost <= PP_CURVE_SIZE ==> b == cost - 1
  {
    var clipped := if cost > PP_CURVE_SIZE then PP_CURVE_SIZE else cost;
    (if clipped == 0 then 1 else clipped) - 1
  }

  /** The value of a deck: its two vectors. */
  datatype Entries = Entries(cards: seq<nat>, counts: seq<nat>)
  {
    /** The two vectors have one entry per card (the source indexes one by the other). */
    predicate Aligned()
    {
      |cards| == |counts|
    }

    ghost predicate Distinct()
    {
      forall i, j :: 0 <= i < j < |cards| ==> cards[i] != cards[j]
    }

    /** The encoding's invariant: aligned, no card twice, every count in [1, MAX_CARD_COPIES]. */
    ghost predicate Valid()
    {
      && Aligned()
      && Distinct()
      && forall i :: 0 <= i < |counts| ==> 1 <= counts[i] <= MAX_CARD_COPIES
    }

    /** `copies`: the count stored at the first position of `card`, 0 when it is absent. */
    function Copies(card: nat): (n: nat)
      requires Aligned()
      ensures card !in cards ==> n == 0
    {
      var i := Position(cards, card);
      if i < |cards| then counts[i] else 0
    }

    /** `current_size`: the number of copies in the deck. */
    function Size(): nat
    {
      Sum(counts)
    }

    /** `add`: a new card enters with one copy; a present one goes up by one, capped. */
    function Add(card: nat): (e: Entries)
      requires Aligned()
      ensures e.Aligned()
    {
      if Copies(card) == 0 then Entries(cards + [card], counts + [1])
      else Entries(cards, counts[Position(cards, card) := MinNat(MAX_CARD_COPIES, Copies(card) + 1)])
    }

    /** `remove_random` once the roll is drawn: one copy fewer at `roll`, the entry dropped at 0. */
    function RemoveAt(roll: nat): (e: Entries)
      requires Aligned() && roll < |cards| && 1 <= counts[roll]
      ensures e.Aligned()
    {
      if counts[roll] - 1 == 0 then Entries(cards[..roll] + cards[roll + 1..], counts[..roll] + counts[roll + 1..])
      else Entries(cards, counts[roll := counts[roll] - 1])
    }

    /** The first `i` entries. */
    function Prefix(i: nat): (e: Entries)
      requires Aligned() && i <= |cards|
      ensures e.Aligned() && |e.cards| == i
    {
      Entries(cards[..i], counts[..i])
    }

    /** Every copy in entry order: `cards[0]` `counts[0]` times, then `cards[1]`, ... */
    function Expand(): (xs: seq<nat>)
      requires Aligned()
      ensures |xs| == Size()
      decreases |cards|
    {
      if cards == [] then []
      else Repeat(cards[0], counts[0]) + Entries(cards[1..], counts[1..]).Expand()
    }

    /** The pp curve: entry by entry, each entry's copies go to the bucket of its cost. */
    function Curve(cost: nat -> nat): (v: seq<nat>)
      requires Aligned()
      ensures |v| == PP_CURVE_SIZE
      decreases |cards|
    {
      if cards == [] then seq(PP_CURVE_SIZE, _ => 0)
      else
        var last := |cards| - 1;
        var init := Entries(cards[..last], counts[..last]).Curve(cost);
        var b := Bucket(cost(cards[last]));
        init[b := init[b] + counts[last]]
    }
  }

  const Empty: Entries := Entries([], [])

  /** The deck reached by calling `add` on each of `xs` in turn. */
  function AddAll(e: Entries, xs: seq<nat>): (r: Entries)
    requires e.Aligned()
    ensures r.Aligned()
    decreases |xs|
  {
    if xs == [] then e else AddAll(e, xs[..|xs| - 1]).Add(xs[|xs| - 1])
  }

  /** `random_fill` fed by `draws`: add draws until DECK_SIZE copies or until the draws run out. */
  function FillWith(e: Entries, draws: seq<nat>): (r: Entries)
    requires e.Aligned()
    ensures r.Aligned()
    decreases |draws|
  {
    if DECK_SIZE <= e.Size() || draws == [] then e else FillWith(e.Add(draws[0]), draws[1..])
  }

  /** The child `mix` has built before its fill: `crossover` copies walked from `mine`,
      then the first `DECK_SIZE - 1 - crossover` copies walked from `theirs`. */
  function Crossed(mine: Entries, theirs: Entries, crossover: nat): (child: Entries)
    requires mine.Aligned() && theirs.Aligned()
    requires crossover < DECK_SIZE && crossover <= mine.Size()
    requires DECK_SIZE - 1 - crossover <= theirs.Size()
    ensures child.Aligned()
  {
    AddAll(Empty, mine.Expand()[..crossover] + theirs.Expand()[..DECK_SIZE - 1 - crossover])
  }

  // ---------------------------------------------------------------------------
  // copies and the invariant

  /** Under the invariant, the copies of the card at position `i` are `counts[i]`. */
  lemma CopiesAt(e: Entries, i: nat)
    requires e.Valid() && i < |e.cards|
    ensures e.Copies(e.cards[i]) == e.counts[i]
  {
    var p := Position(e.cards, e.cards[i]);
  }

  /** Under the invariant, a card has copies exactly when it is one of `cards`. */
  lemma CopiesPresent(e: Entries, card: nat)
    requires e.Valid()
    ensures e.Copies(card) == 0 <==> card !in e.cards
    ensures e.Copies(card) <= MAX_CARD_COPIES
  {
    if card in e.cards {
      var i := Position(e.cards, card);
      CopiesAt(e, i);
    }
  }

  // ---------------------------------------------------------------------------
  // add

  lemma AddValid(e: Entries, card: nat)
    requires e.Valid()
    ensures e.Add(card).Valid()
    ensures e.cards <= e.Add(card).cards
  {
    CopiesPresent(e, card);
  }

  /** `add` raises the copies of `card` to min(MAX_CARD_COPIES, old + 1) and no other card's. */
  lemma AddCopies(e: Entries, card: nat)
    requires e.Valid()
    ensures e.Add(card).Copies(card) == MinNat(MAX_CARD_COPIES, e.Copies(card) + 1)
    ensures forall c :: c != card ==> e.Add(card).Copies(c) == e.Copies(c)
  {
    var r := e.Add(card);
    AddValid(e, card);
    CopiesPresent(e, card);
    CopiesPresent(r, card);
    if card !in e.cards {
      CopiesAt(r, |e.cards|);
    } else {
      CopiesAt(r, Position(e.cards, card));
    }
    forall c | c != card ensures r.Copies(c) == e.Copies(c) {
      CopiesPresent(e, c);
      CopiesPresent(r, c);
      if c in e.cards {
        var i := Position(e.cards, c);
        CopiesAt(e, i);
        CopiesAt(r, i);
      }
    }
  }

  /** `add` grows the deck by one copy unless the card is already at the cap. */
  lemma AddSize(e: Entries, card: nat)
    requires e.Valid()
    ensures e.Add(card).Size() == e.Size() + (if e.Copies(card) < MAX_CARD_COPIES then 1 else 0)
  {
    CopiesPresent(e, card);
    if e.Copies(card) == 0 {
      SumAppend(e.counts, [1]);
      SumSingle(1);
    } else {
      var i := Position(e.cards, card);
      SumUpdate(e.counts, i, MinNat(MAX_CARD_COPIES, e.Copies(card) + 1));
    }
  }

  /** `add` on a card already at the cap leaves the deck as it was. */
  lemma AddAtCap(e: Entries, card: nat)
    requires e.Valid() && e.Copies(card) == MAX_CARD_COPIES
    ensures e.Add(card) == e
  {
    var i := Position(e.cards, card);
    assert e.counts[i := MAX_CARD_COPIES] == e.counts;
  }

  /** Without the invariant, `add` still never grows the deck by more than one copy. */
  lemma AddAtMostOne(e: Entries, card: nat)
    requires e.Aligned()
    ensures e.Add(card).Size() <= e.Size() + 1
  {
    if e.Copies(card) == 0 {
      SumAppend(e.counts, [1]);
      SumSingle(1);
    } else {
      var i := Position(e.cards, card);
      SumUpdate(e.counts, i, MinNat(MAX_CARD_COPIES, e.Copies(card) + 1));
    }
  }

  // ---------------------------------------------------------------------------
  // remove_random

  lemma RemoveAtValid(e: Entries, roll: nat)
    requires e.Valid() && roll < |e.cards|
    ensures e.RemoveAt(roll).Valid()
  {
    var r := e.RemoveAt(roll);
    if e.counts[roll] == 1 {
      forall i, j | 0 <= i < j < |r.cards| ensures r.cards[i] != r.cards[j] {
        var i', j' := if i < roll then i else i + 1, if j < roll then j else j + 1;
        assert r.cards[i] == e.cards[i'] && r.cards[j] == e.cards[j'];
      }
      forall i | 0 <= i < |r.counts| ensures 1 <= r.counts[i] <= MAX_CARD_COPIES {
        assert r.counts[i] == e.counts[if i < roll then i else i + 1];
      }
    }
  }

  /** `remove_random` takes exactly one copy away. */
  lemma RemoveAtSize(e: Entries, roll: nat)
    requires e.Valid() && roll < |e.cards|
    ensures e.RemoveAt(roll).Size() + 1 == e.Size()
  {
    if e.counts[roll] == 1 {
      SumDelete(e.counts, roll);
    } else {
      SumUpdate(e.counts, roll, e.counts[roll] - 1);
    }
  }

  /** The cards left after `remove_random` are cards of the deck, each at its old position
      or one to the left of it. */
  lemma RemoveAtCards(e: Entries, roll: nat, c: nat)
    requires e.Valid() && roll < |e.cards|
    ensures c in e.RemoveAt(roll).cards ==> c in e.cards
    ensures c in e.cards && c != e.cards[roll] ==>
      var i := Position(e.cards, c);
      var i' := if e.counts[roll] == 1 && i > roll then i - 1 else i;
      i' < |e.RemoveAt(roll).cards| && e.RemoveAt(roll).cards[i'] == c
  {
    if e.counts[roll] == 1 {
      assert e.RemoveAt(roll).cards == e.cards[..roll] + e.cards[roll + 1..];
    }
  }

  /** `remove_random` leaves the copies of every card other than the rolled one alone. */
  lemma RemoveAtOther(e: Entries, roll: nat, c: nat)
    requires e.Valid() && roll < |e.cards| && c != e.cards[roll]
    ensures e.RemoveAt(roll).Copies(c) == e.Copies(c)
  {
    var r := e.RemoveAt(roll);
    RemoveAtValid(e, roll);
    RemoveAtCards(e, roll, c);
    CopiesPresent(e, c);
    CopiesPresent(r, c);
    if c in e.cards {
      var i := Position(e.cards, c);
      CopiesAt(e, i);
      var i' := if e.counts[roll] == 1 && i > roll then i - 1 else i;
      CopiesAt(r, i');
    }
  }

  /** `remove_random` lowers the copies of the rolled card by one and changes no other card. */
  lemma RemoveAtCopies(e: Entries, roll: nat)
    requires e.Valid() && roll < |e.cards|
    ensures e.RemoveAt(roll).Copies(e.cards[roll]) + 1 == e.Copies(e.cards[roll])
    ensures forall c :: c != e.cards[roll] ==> e.RemoveAt(roll).Copies(c) == e.Copies(c)
  {
    var r := e.RemoveAt(roll);
    var card := e.cards[roll];
    RemoveAtValid(e, roll);
    CopiesAt(e, roll);
    if e.counts[roll] == 1 {
      assert card !in r.cards by {
        assert r.cards == e.cards[..roll] + e.cards[roll + 1..];
      }
      CopiesPresent(r, card);
    } else {
      CopiesAt(r, roll);
    }
    forall c | c != card ensures r.Copies(c) == e.Copies(c) {
      RemoveAtOther(e, roll, c);
    }
  }

  // ---------------------------------------------------------------------------
  // get_pp_curve

  /** The pp curve accounts for every copy of the deck exactly once. */
  lemma {:induction false} CurveSum(e: Entries, cost: nat -> nat)
    requires e.Aligned()
    ensures Sum(e.Curve(cost)) == e.Size()
    decreases |e.cards|
  {
    if e.cards == [] {
      SumZeros(PP_CURVE_SIZE);
    } else {
      var last := |e.cards| - 1;
      var init := Entries(e.cards[..last], e.counts[..last]);
      var b := Bucket(cost(e.cards[last]));
      var c := init.Curve(cost);
      assert e.Curve(cost) == c[b := c[b] + e.counts[last]];
      CurveSum(init, cost);
      SumUpdate(c, b, c[b] + e.counts[last]);
      SumPrefixSnoc(e.counts, last);
      assert e.counts[..last + 1] == e.counts;
    }
  }

  /** One more entry of the deck adds its copies to the bucket of its cost. */
  lemma CurvePrefixSnoc(e: Entries, i: nat, cost: nat -> nat)
    requires e.Aligned() && i < |e.cards|
    ensures e.Prefix(i + 1).Curve(cost)
      == e.Prefix(i).Curve(cost)[Bucket(cost(e.cards[i])) := e.Prefix(i).Curve(cost)[Bucket(cost(e.cards[i]))] + e.counts[i]]
  {
    var next := e.Prefix(i + 1);
    assert next.Prefix(i) == e.Prefix(i);
    assert Entries(next.cards[..i], next.counts[..i]) == e.Prefix(i);
  }

  /** One step of `get_pp_curve`'s loop: the clipped cost picks the bucket, and the
      card's copies are its count. */
  lemma CurveStep(e: Entries, i: nat, cost: nat -> nat, curve: seq<nat>, ppCost: nat)
    requires e.Valid() && i < |e.cards| && curve == e.Prefix(i).Curve(cost)
    requires ppCost == (if cost(e.cards[i]) > PP_CURVE_SIZE then PP_CURVE_SIZE else if cost(e.cards[i]) == 0 then 1 else cost(e.cards[i]))
    ensures 1 <= ppCost <= |curve|
    ensures curve[ppCost - 1 := curve[ppCost - 1] + e.Copies(e.cards[i])] == e.Prefix(i + 1).Curve(cost)
  {
    CopiesAt(e, i);
    CurvePrefixSnoc(e, i, cost);
  }

  /** When every card costs at most 1, the whole deck sits in the first bucket. */
  lemma {:induction false} CurveAllCheap(e: Entries, cost: nat -> nat)
    requires e.Aligned()
    requires forall i :: 0 <= i < |e.cards| ==> cost(e.cards[i]) <= 1
    ensures e.Curve(cost) == [e.Size(), 0, 0, 0, 0, 0, 0, 0]
    decreases |e.cards|
  {
    if e.cards != [] {
      var last := |e.cards| - 1;
      var init := Entries(e.cards[..last], e.counts[..last]);
      CurveAllCheap(init, cost);
      SumPrefixSnoc(e.counts, last);
      assert e.counts[..last + 1] == e.counts;
    }
  }

  /** A valid deck holds between one and MAX_CARD_COPIES copies of each of its cards, so it is
      empty exactly when it has no entries. */
  lemma SizeBounds(e: Entries)
    requires e.Valid()
    ensures |e.cards| <= e.Size() <= MAX_CARD_COPIES * |e.cards|
    ensures e.Size() == 0 <==> e.cards == []
  {
    SumBounds(e.counts);
  }

  /** A value appended to a sequence that lacks it is found at the end. */
  lemma PositionAppend<T>(xs: seq<T>, x: T)
    requires x !in xs
    ensures Position(xs + [x], x) == |xs|
  {
    var ys := xs + [x];
    assert ys[|xs|] == x;
    assert forall j :: 0 <= j < |xs| ==> ys[j] == xs[j];
  }

  /** Adding `k >= 1` copies of a card the deck lacks appends it with `min(3, k)` copies. */
  lemma {:induction false} AddRepeated(e: Entries, card: nat, k: nat)
    requires e.Aligned() && card !in e.cards && 1 <= k
    ensures AddAll(e, Repeat(card, k)) == Entries(e.cards + [card], e.counts + [MinNat(MAX_CARD_COPIES, k)])
    decreases k
  {
    var xs := Repeat(card, k);
    assert xs[..k - 1] == Repeat(card, k - 1) && xs[k - 1] == card;
    if k == 1 {
      assert AddAll(e, xs) == e.Add(card);
    } else {
      AddRepeated(e, card, k - 1);
      var prev := Entries(e.cards + [card], e.counts + [MinNat(MAX_CARD_COPIES, k - 1)]);
      PositionAppend(e.cards, card);
      assert prev.Copies(card) == MinNat(MAX_CARD_COPIES, k - 1);
      assert prev.Add(card).counts == e.counts + [MinNat(MAX_CARD_COPIES, k)];
    }
  }

  /** The adds of the deck.rs test before its last one: six of each card below `n`. */
  function TestAdds(n: nat): (xs: seq<nat>)
    ensures |xs| == 6 * n
  {
    if n == 0 then [] else TestAdds(n - 1) + Repeat(n - 1, 6)
  }

  /** The cards `0..n`, in order. */
  function Upto(n: nat): (xs: seq<nat>)
    ensures |xs| == n && forall i :: 0 <= i < n ==> xs[i] == i
  {
    if n == 0 then [] else Upto(n - 1) + [n - 1]
  }

  /** `n` counts at the cap. */
  function Capped(n: nat): (xs: seq<nat>)
    ensures |xs| == n && forall i :: 0 <= i < n ==> xs[i] == MAX_CARD_COPIES
  {
    if n == 0 then [] else Capped(n - 1) + [MAX_CARD_COPIES]
  }

  /** Six adds of each of the cards `0..n` leave each of them at the cap, in order. */
  lemma {:induction false} TestDeck(n: nat)
    ensures AddAll(Empty, TestAdds(n)) == Entries(Upto(n), Capped(n))
  {
    if n > 0 {
      var before := Entries(Upto(n - 1), Capped(n - 1));
      TestDeck(n - 1);
      assert n - 1 !in before.cards;
      AddAllAppend(Empty, TestAdds(n - 1), Repeat(n - 1, 6));
      AddRepeated(before, n - 1, 6);
    }
  }

  lemma {:induction false} SumCapped(n: nat)
    ensures Sum(Capped(n)) == MAX_CARD_COPIES * n
  {
    if n > 0 {
      SumCapped(n - 1);
      SumAppend(Capped(n - 1), [MAX_CARD_COPIES]);
      SumSingle(MAX_CARD_COPIES);
    }
  }

  /** Six adds of each card below `n`, then one of a card `last >= n`, leave the cards below
      `n` at the cap and `last` at one copy. */
  lemma {:induction false} TestDeckLast(n: nat, last: nat)
    requires n <= last
    ensures AddAll(Empty, TestAdds(n) + [last]) == Entries(Upto(n) + [last], Capped(n) + [1])
  {
    var xs := TestAdds(n) + [last];
    assert xs[..|xs| - 1] == TestAdds(n);
    TestDeck(n);
    AddRepeated(Entries(Upto(n), Capped(n)), last, 1);
    assert Repeat(last, 1) == [last];
  }

  /** When the cards of that deck cost at most 1, it has 3n+1 copies, all in the first bucket. */
  lemma {:induction false} TestDeckCurve(n: nat, last: nat, cost: nat -> nat)
    requires n <= last && forall c: nat :: c <= last ==> cost(c) <= 1
    ensures AddAll(Empty, TestAdds(n) + [last]).Size() == MAX_CARD_COPIES * n + 1
    ensures AddAll(Empty, TestAdds(n) + [last]).Curve(cost) == [MAX_CARD_COPIES * n + 1, 0, 0, 0, 0, 0, 0, 0]
  {
    TestDeckLast(n, last);
    var deck := Entries(Upto(n) + [last], Capped(n) + [1]);
    SumAppend(Capped(n), [1]);
    SumSingle(1);
    SumCapped(n);
    CurveAllCheap(deck, cost);
  }

  /** The deck.rs test: six adds of each card below 13, then card 14, make a 40-card deck
      whose curve, when those cards cost at most 1, is `[40, 0, 0, 0, 0, 0, 0, 0]`. */
  lemma CurveTest(cost: nat -> nat)
    requires forall c: nat :: c <= 14 ==> cost(c) <= 1
    ensures AddAll(Empty, TestAdds(13) + [14]).Size() == DECK_SIZE
    ensures AddAll(Empty, TestAdds(13) + [14]).Curve(cost) == [40, 0, 0, 0, 0, 0, 0, 0]
  {
    TestDeckCurve(13, 14, cost);
  }

  // ---------------------------------------------------------------------------
  // sequences of adds, random_fill and mix

  lemma {:induction false} AddAllAppend(e: Entries, xs: seq<nat>, ys: seq<nat>)
    requires e.Aligned()
    ensures AddAll(AddAll(e, xs), ys) == AddAll(e, xs + ys)
    decreases |ys|
  {
    if ys == [] {
      assert xs + ys == xs;
    } else {
      var n := |ys| - 1;
      var zs := xs + ys;
      assert zs[..|zs| - 1] == xs + ys[..n] && zs[|zs| - 1] == ys[n];
      calc {
        AddAll(e, zs);
        AddAll(e, xs + ys[..n]).Add(ys[n]);
        { AddAllAppend(e, xs, ys[..n]); }
        AddAll(AddAll(e, xs), ys[..n]).Add(ys[n]);
        AddAll(AddAll(e, xs), ys);
      }
    }
  }

  lemma AddAllSnoc(e: Entries, xs: seq<nat>, i: nat)
    requires e.Aligned() && i < |xs|
    ensures AddAll(e, xs[..i + 1]) == AddAll(e, xs[..i]).Add(xs[i])
  {
    assert xs[..i + 1][..i] == xs[..i];
  }

  lemma {:induction false} AddAllValid(e: Entries, xs: seq<nat>)
    requires e.Valid()
    ensures AddAll(e, xs).Valid()
    decreases |xs|
  {
    if xs != [] {
      AddAllValid(e, xs[..|xs| - 1]);
      AddValid(AddAll(e, xs[..|xs| - 1]), xs[|xs| - 1]);
    }
  }

  /** Each `add` grows the deck by at most one copy, so `xs` grow it by at most `|xs|`. */
  lemma {:induction false} AddAllSize(e: Entries, xs: seq<nat>)
    requires e.Aligned()
    ensures AddAll(e, xs).Size() <= e.Size() + |xs|
    decreases |xs|
  {
    if xs != [] {
      AddAllSize(e, xs[..|xs| - 1]);
      AddAtMostOne(AddAll(e, xs[..|xs| - 1]), xs[|xs| - 1]);
    }
  }

  lemma FillValid(e: Entries, draws: seq<nat>)
    requires e.Valid()
    ensures FillWith(e, draws).Valid()
    decreases |draws|
  {
    if !(DECK_SIZE <= e.Size() || draws == []) {
      AddValid(e, draws[0]);
      FillValid(e.Add(draws[0]), draws[1..]);
    }
  }

  /** `random_fill` never takes a deck past DECK_SIZE copies. */
  lemma {:induction false} FillBounded(e: Entries, draws: seq<nat>)
    requires e.Aligned() && e.Size() <= DECK_SIZE
    ensures FillWith(e, draws).Size() <= DECK_SIZE
    decreases |draws|
  {
    if !(DECK_SIZE <= e.Size() || draws == []) {
      AddAtMostOne(e, draws[0]);
      FillBounded(e.Add(draws[0]), draws[1..]);
    }
  }

  /** `random_fill` ends with exactly DECK_SIZE copies, provided the draws suffice: adding
      all of them would reach DECK_SIZE (the source loops until it does). */
  lemma {:induction false} FillComplete(e: Entries, draws: seq<nat>)
    requires e.Aligned() && e.Size() <= DECK_SIZE
    requires DECK_SIZE <= AddAll(e, draws).Size()
    ensures FillWith(e, draws).Size() == DECK_SIZE
    decreases |draws|
  {
    FillBounded(e, draws);
    if e.Size() < DECK_SIZE {
      assert draws != [];
      AddAtMostOne(e, draws[0]);
      assert AddAll(e, [draws[0]]) == e.Add(draws[0]) by {
        assert [draws[0]][..0] == [];
      }
      AddAllAppend(e, [draws[0]], draws[1..]);
      assert [draws[0]] + draws[1..] == draws;
      FillComplete(e.Add(draws[0]), draws[1..]);
    }
  }

  /** Copy `Sum(counts[..j]) + c` of the expansion is a copy of `cards[j]`. */
  lemma {:induction false} ExpandAt(e: Entries, j: nat, c: nat)
    requires e.Aligned() && j < |e.cards| && c < e.counts[j]
    ensures Sum(e.counts[..j]) + c < |e.Expand()|
    ensures e.Expand()[Sum(e.counts[..j]) + c] == e.cards[j]
    decreases j
  {
    var tail := Entries(e.cards[1..], e.counts[1..]);
    var head := Repeat(e.cards[0], e.counts[0]);
    assert e.Expand() == head + tail.Expand();
    if j == 0 {
      assert e.counts[..0] == [];
    } else {
      ExpandAt(tail, j - 1, c);
      assert e.counts[..j][1..] == tail.counts[..j - 1];
    }
  }

  /** The cursor of `mix`'s walk: after `i` copies, `copiesCount` copies of entry `current`
      have been taken, and every entry before it is used up. */
  ghost predicate WalkAt(e: Entries, current: nat, copiesCount: nat, i: nat)
    requires e.Aligned()
  {
    && current <= |e.cards|
    && i == Sum(e.counts[..current]) + copiesCount
    && (current < |e.cards| ==> copiesCount < e.counts[current])
    && (current == |e.cards| ==> copiesCount == 0)
  }

  /** While fewer than `Size()` copies have been walked, the cursor is on a card, that card
      is the next copy of the expansion, and taking it moves the cursor on. */
  lemma WalkStep(e: Entries, current: nat, copiesCount: nat, i: nat, n: nat)
    requires e.Valid() && WalkAt(e, current, copiesCount, i) && i < n <= e.Size()
    ensures current < |e.cards| && i < |e.Expand()| && e.Expand()[i] == e.cards[current]
    ensures copiesCount + 1 == e.counts[current] ==> WalkAt(e, current + 1, 0, i + 1)
    ensures copiesCount + 1 < e.counts[current] ==> WalkAt(e, current, copiesCount + 1, i + 1)
  {
    assert e.counts[..|e.counts|] == e.counts;
    ExpandAt(e, current, copiesCount);
    SumPrefixSnoc(e.counts, current);
  }

  /** The state of one loop of `mix` after `i` steps: the walk over `from` is at
      (`current`, `copiesCount`), and the child `v` is `start` plus the first `i` copies. */
  ghost predicate CopyingAt(from: Entries, start: Entries, v: Entries, current: nat, copiesCount: nat, i: nat)
    requires from.Aligned() && start.Aligned()
  {
    && WalkAt(from, current, copiesCount, i)
    && i <= |from.Expand()|
    && v == AddAll(start, from.Expand()[..i])
  }

  /** Before the first step, nothing is walked and the child is as it started. */
  lemma CopyingStart(from: Entries, start: Entries)
    requires from.Valid() && start.Aligned()
    ensures CopyingAt(from, start, start, 0, 0, 0)
  {
    assert from.counts[..0] == [] && from.Expand()[..0] == [];
  }

  /** One step of the loop: the child is still a valid deck, the walk is on a card, and
      adding that card extends the child by the next copy of the expansion. */
  lemma CopyStep(from: Entries, start: Entries, v: Entries, current: nat, copiesCount: nat, i: nat, n: nat)
    requires from.Valid() && start.Aligned() && CopyingAt(from, start, v, current, copiesCount, i) && i < n <= from.Size()
    ensures current < |from.cards| && v.Aligned()
    ensures copiesCount + 1 == from.counts[current] ==> CopyingAt(from, start, v.Add(from.cards[current]), current + 1, 0, i + 1)
    ensures copiesCount + 1 < from.counts[current] ==> CopyingAt(from, start, v.Add(from.cards[current]), current, copiesCount + 1, i + 1)
  {
    WalkStep(from, current, copiesCount, i, n);
    AddAllSnoc(start, from.Expand(), i);
  }

  /** The child `mix` builds before its fill holds at most DECK_SIZE - 1 copies and is a
      valid deck. */
  lemma CrossedBounds(mine: Entries, theirs: Entries, crossover: nat)
    requires mine.Aligned() && theirs.Aligned()
    requires crossover < DECK_SIZE && crossover <= mine.Size()
    requires DECK_SIZE - 1 - crossover <= theirs.Size()
    ensures Crossed(mine, theirs, crossover).Valid()
    ensures Crossed(mine, theirs, crossover).Size() <= DECK_SIZE - 1
  {
    var walked := mine.Expand()[..crossover] + theirs.Expand()[..DECK_SIZE - 1 - crossover];
    AddAllValid(Empty, walked);
    AddAllSize(Empty, walked);
  }

  /** The two walks of `mix`, one after the other, build `Crossed`, which is a valid deck. */
  lemma MixParts(mine: Entries, theirs: Entries, crossover: nat)
    requires mine.Valid() && theirs.Valid()
    requires crossover < DECK_SIZE - 1 && crossover <= mine.Size() && DECK_SIZE - 1 - crossover <= theirs.Size()
    ensures AddAll(AddAll(Empty, mine.Expand()[..crossover]), theirs.Expand()[..DECK_SIZE - 1 - crossover])
      == Crossed(mine, theirs, crossover)
    ensures Crossed(mine, theirs, crossover).Valid()
  {
    AddAllAppend(Empty, mine.Expand()[..crossover], theirs.Expand()[..DECK_SIZE - 1 - crossover]);
    CrossedBounds(mine, theirs, crossover);
  }

  /** The child of `mix` has exactly DECK_SIZE copies, provided its fill draws suffice. */
  lemma MixComplete(mine: Entries, theirs: Entries, crossover: nat, draws: seq<nat>)
    requires mine.Aligned() && theirs.Aligned()
    requires crossover < DECK_SIZE && crossover <= mine.Size()
    requires DECK_SIZE - 1 - crossover <= theirs.Size()
    requires DECK_SIZE <= AddAll(Crossed(mine, theirs, crossover), draws).Size()
    ensures FillWith(Crossed(mine, theirs, crossover), draws).Size() == DECK_SIZE
    ensures FillWith(Crossed(mine, theirs, crossover), draws).Valid()
  {
    CrossedBounds(mine, theirs, crossover);
    FillComplete(Crossed(mine, theirs, crossover), draws);
    FillValid(Crossed(mine, theirs, crossover), draws);
  }

  // ---------------------------------------------------------------------------
  // id_to_sv_portal_encode

  function Span(first: char, n: nat): (s: string)
    requires first as int + n <= 0xD800
    ensures |s| == n
  {
    seq(n, i requires 0 <= i < n => (first as int + i) as char)
  }

  /** The portal's digit alphabet: `0-9`, `A-Z`, `a-z`, `-`, `_`. */
  const RADIX: string := Span('0', 10) + Span('A', 26) + Span('a', 26) + ['-', '_']

  /** The value of one digit of the alphabet. */
  function DigitValue(c: char): (d: nat)
    ensures d < 64
    ensures c in RADIX ==> RADIX[d] == c
  {
    if '0' <= c <= '9' then c as int - '0' as int
    else if 'A' <= c <= 'Z' then c as int - 'A' as int + 10
    else if 'a' <= c <= 'z' then c as int - 'a' as int + 36
    else if c == '-' then 62
    else 63
  }

  lemma RadixDigits()
    ensures |RADIX| == 64
    ensures forall d :: 0 <= d < 64 ==> DigitValue(RADIX[d]) == d
  {
  }

  /** Reads a string of digits, most significant first. */
  function Decode(s: string): (n: nat)
    ensures n < Pow64(|s|)
  {
    if s == [] then 0 else Decode(s[..|s| - 1]) * 64 + DigitValue(s[|s| - 1])
  }

  function Pow64(k: nat): nat
  {
    if k == 0 then 1 else 64 * Pow64(k - 1)
  }

  /** `id` written in base 64, most significant digit first, no digits for 0. */
  function Base64(id: nat): (s: string)
    ensures forall i :: 0 <= i < |s| ==> s[i] in RADIX
  {
    if id == 0 then [] else Base64(id / 64) + [RADIX[id % 64]]
  }

  /** Reading the encoding back gives the id. */
  lemma {:induction false} DecodeBase64(id: nat)
    ensures Decode(Base64(id)) == id
  {
    if id != 0 {
      var s := Base64(id);
      DecodeBase64(id / 64);
      assert s[..|s| - 1] == Base64(id / 64);
      RadixDigits();
    }
  }

  /** The encoding is empty exactly for 0 and otherwise has no leading zero digit. */
  lemma {:induction false} Base64Canonical(id: nat)
    ensures Base64(id) == [] <==> id == 0
    ensures id != 0 ==> DigitValue(Base64(id)[0]) != 0
  {
    if id != 0 {
      RadixDigits();
      if id / 64 == 0 {
        assert Base64(id) == [RADIX[id % 64]];
      } else {
        Base64Canonical(id / 64);
      }
    }
  }

  /** A digit string with no leading zero digit reads as a number whose encoding is that
      string again. */
  lemma {:induction false} Base64Decode(s: string)
    requires forall i :: 0 <= i < |s| ==> s[i] in RADIX
    requires s != [] ==> DigitValue(s[0]) != 0
    ensures Base64(Decode(s)) == s
    ensures Decode(s) == 0 <==> s == []
    decreases |s|
  {
    if s != [] {
      var init, d := s[..|s| - 1], DigitValue(s[|s| - 1]);
      Base64Decode(init);
      var n := Decode(s);
      assert n == Decode(init) * 64 + d;
      assert n / 64 == Decode(init) && n % 64 == d;
      if init == [] {
        assert d == DigitValue(s[0]);
      }
      assert s == init + [RADIX[d]];
    }
  }

  /** `id_to_sv_portal_encode`: pushes the low digit while `id > 0`, then reverses. */
  method IdToSvPortalEncode(id: nat) returns (s: string)
    ensures s == Base64(id)
    ensures Decode(s) == id
    ensures s == [] <==> id == 0
  {
    var n := id;
    var reversed: string := [];
    RadixDigits();
    while n > 0
      invariant Base64(id) == Base64(n) + Generics.Invert(reversed)
    {
      Generics.InvertSnoc(reversed, RADIX[n % 64]);
      reversed := reversed + [RADIX[n % 64]];
      n := n / 64;
    }
    s := Generics.Invert(reversed);
    DecodeBase64(id);
    Base64Canonical(id);
  }

  // ---------------------------------------------------------------------------
  // the deck as the source stores it

  class Deck {
    /** The distinct card indices of the deck. */
    var cards: seq<nat>
    /** `_copies`: in its ith element, the copies of `cards[i]`. */
    var counts: seq<nat>

    function Value(): Entries
      reads this
    {
      Entries(cards, counts)
    }

    ghost predicate Valid()
      reads this
    {
      Value().Valid()
    }

    /** `Deck::new`: the empty deck. */
    constructor ()
      ensures Valid() && Value() == Empty
    {
      cards, counts := [], [];
    }

    /** `add`. */
    method Add(card: nat)
      requires Value().Aligned()
      modifies this
      ensures Value() == old(Value()).Add(card)
      ensures old(Valid()) ==> Valid()
    {
      if Valid() {
        AddValid(Value(), card);
      }
      var n := Value().Copies(card);
      if n == 0 {
        cards := cards + [card];
        counts := counts + [1];
      } else {
        var i := Position(cards, card);
        counts := counts[i := MinNat(MAX_CARD_COPIES, n + 1)];
      }
    }

    /** `remove_random`, with the roll drawn from [1, len - 1) passed in. */
    method RemoveRandom(roll: nat)
      requires Valid()
      requires 1 <= roll < |cards| - 1
      modifies this
      ensures Valid()
      ensures Value() == old(Value()).RemoveAt(roll)
      ensures Value().Size() + 1 == old(Value().Size())
    {
      RemoveAtValid(Value(), roll);
      RemoveAtSize(Value(), roll);
      counts := counts[roll := counts[roll] - 1];
      if counts[roll] == 0 {
        counts := counts[..roll] + counts[roll + 1..];
        cards := cards[..roll] + cards[roll + 1..];
      }
    }

    /** `random_fill`, adding the draws in turn while the deck is short of DECK_SIZE. */
    method RandomFill(draws: seq<nat>)
      requires Valid()
      modifies this
      ensures Valid()
      ensures Value() == FillWith(old(Value()), draws)
      ensures old(Value()).Size() <= DECK_SIZE <= AddAll(old(Value()), draws).Size() ==> Value().Size() == DECK_SIZE
    {
      ghost var start := Value();
      var k := 0;
      while Value().Size() < DECK_SIZE && k < |draws|
        invariant k <= |draws|
        invariant Valid()
        invariant FillWith(Value(), draws[k..]) == FillWith(start, draws)
        decreases |draws| - k
      {
        assert draws[k..][1..] == draws[k + 1..];
        Add(draws[k]);
        k := k + 1;
      }
      if start.Size() <= DECK_SIZE <= AddAll(start, draws).Size() {
        FillComplete(start, draws);
      }
    }

    /** `from_random`: a new deck filled from the draws. */
    static method FromRandom(draws: seq<nat>) returns (d: Deck)
      ensures fresh(d) && d.Valid()
      ensures d.Value() == FillWith(Empty, draws)
    {
      d := new Deck();
      d.RandomFill(draws);
    }

    /** `mutate`: remove one copy at the roll, then fill again. */
    method Mutate(roll: nat, draws: seq<nat>)
      requires Valid()
      requires 1 <= roll < |cards| - 1
      modifies this
      ensures Valid()
      ensures Value() == FillWith(old(Value()).RemoveAt(roll), draws)
    {
      RemoveRandom(roll);
      RandomFill(draws);
    }

    /** `get_pp_curve`, with the catalog's pp cost of each card index passed in as `cost`. */
    method PpCurve(cost: nat -> nat) returns (curve: seq<nat>)
      requires Valid()
      ensures curve == Value().Curve(cost)
      ensures |curve| == PP_CURVE_SIZE && Sum(curve) == Value().Size()
    {
      var deck := Value();
      curve := seq(PP_CURVE_SIZE, _ => 0);
      for i := 0 to |deck.cards|
        invariant curve == deck.Prefix(i).Curve(cost)
      {
        var ppCost := cost(deck.cards[i]);
        if ppCost > PP_CURVE_SIZE {
          ppCost := PP_CURVE_SIZE;
        }
        if ppCost == 0 {
          ppCost := 1;
        }
        CurveStep(deck, i, cost, curve, ppCost);
        curve := curve[ppCost - 1 := curve[ppCost - 1] + deck.Copies(deck.cards[i])];
      }
      assert deck.Prefix(|deck.cards|) == deck;
      CurveSum(deck, cost);
    }

    /** One loop of `mix`: `n` times, add the current card of `from` and step to the next
        entry once all its copies are taken. */
    static method AddCopyGroups(child: Deck, from: Entries, n: nat)
      requires child.Value().Aligned() && from.Valid() && n <= from.Size()
      modifies child
      ensures child.Value() == AddAll(old(child.Value()), from.Expand()[..n])
    {
      ghost var start := child.Value();
      var copiesCount, currentCard := 0, 0;
      CopyingStart(from, start);
      for i := 0 to n
        invariant CopyingAt(from, start, child.Value(), currentCard, copiesCount, i)
      {
        CopyStep(from, start, child.Value(), currentCard, copiesCount, i, n);
        child.Add(from.cards[currentCard]);
        copiesCount := copiesCount + 1;
        if copiesCount == from.counts[currentCard] {
          currentCard := currentCard + 1;
          copiesCount := 0;
        }
      }
    }

    /** The two loops of `mix` on an empty child: the first `crossover` copies of `mine`,
        then the first DECK_SIZE - 1 - crossover copies of `theirs`. */
    static method CrossInto(child: Deck, mine: Entries, theirs: Entries, crossover: nat)
      requires child.Value() == Empty && mine.Valid() && theirs.Valid()
      requires crossover < DECK_SIZE - 1
      requires crossover <= mine.Size() && DECK_SIZE - 1 - crossover <= theirs.Size()
      modifies child
      ensures child.Valid() && child.Value() == Crossed(mine, theirs, crossover)
    {
      MixParts(mine, theirs, crossover);
      AddCopyGroups(child, mine, crossover);
      AddCopyGroups(child, theirs, DECK_SIZE - 1 - crossover);
    }

    /** `mix`: single-point crossover at `crossover` (drawn from [0, DECK_SIZE - 1)), then
        a fill from `draws`. */
    method Mix(other: Deck, crossover: nat, draws: seq<nat>) returns (child: Deck)
      requires Valid() && other.Valid()
      requires crossover < DECK_SIZE - 1
      requires crossover <= Value().Size() && DECK_SIZE - 1 - crossover <= other.Value().Size()
      ensures fresh(child) && child.Valid()
      ensures child.Value() == FillWith(Crossed(Value(), other.Value(), crossover), draws)
    {
      var mine, theirs := Value(), other.Value();
      child := new Deck();
      CrossInto(child, mine, theirs, crossover);
      child.RandomFill(draws);
    }
  }
}
