/** The weighted card selector (`pickWeighted`), the intent/tone filtered
    draw (`pickForIntent`) and the lookup of a card by id (`findCardById`).

    The random source is a single value `u` (the one call to `rng()` the
    selector makes); the uniform sources the application passes produce
    values in [0, 1). Weights and the threshold are exact reals. */
module Selector {
  import opened Optional
  import opened Content

  /** `card.weight ?? 1`. */
  function Weight(c: MessageCard): real {
    match c.weight
    case Unweighted => 1.0
    case Weighted(w) => w
  }

  /** The sum of all weights (the `reduce` over the pool). */
  function TotalWeight(cards: seq<MessageCard>): real {
    if |cards| == 0 then 0.0 else Weight(cards[0]) + TotalWeight(cards[1..])
  }

  /** The sum of the weights of the first `n` cards. */
  function Prefix(cards: seq<MessageCard>, n: nat): real
    requires n <= |cards|
  {
    if n == 0 then 0.0 else Weight(cards[0]) + Prefix(cards[1..], n - 1)
  }

  lemma {:induction false} PrefixOfAll(cards: seq<MessageCard>)
    ensures Prefix(cards, |cards|) == TotalWeight(cards)
  {
    if |cards| > 0 {
      PrefixOfAll(cards[1..]);
    }
  }

  /** Card `k` is where the scan stops: the running threshold stays positive
      through cards `0..k-1`, and card `k` either brings it to zero or below,
      or is the last card (the fall-through). */
  predicate IsStop(cards: seq<MessageCard>, threshold: real, k: int) {
    && 0 <= k < |cards|
    && (forall j | 1 <= j <= k :: threshold - Prefix(cards, j) > 0.0)
    && (threshold - Prefix(cards, k + 1) <= 0.0 || k == |cards| - 1)
  }

  /** The loop of `pickWeighted`: subtract each weight from the threshold in
      turn and stop at the first card that brings it to zero or below;
      `|cards|` when no card does. */
  function Scan(cards: seq<MessageCard>, threshold: real): (k: nat)
    ensures k <= |cards|
    ensures forall j | 1 <= j <= k :: threshold - Prefix(cards, j) > 0.0
    ensures k < |cards| ==> threshold - Prefix(cards, k + 1) <= 0.0
    decreases |cards|
  {
    if |cards| == 0 then 0
    else if threshold - Weight(cards[0]) <= 0.0 then 0
    else 1 + Scan(cards[1..], threshold - Weight(cards[0]))
  }

  /** `rng() * totalWeight`: the starting threshold of the scan. */
  function Threshold(cards: seq<MessageCard>, u: real): real {
    u * TotalWeight(cards)
  }

  /** Position of the card `pickWeighted` returns from a non-empty pool. */
  function PickIndex(cards: seq<MessageCard>, u: real): (k: nat)
    requires |cards| > 0
    ensures k < |cards|
    ensures TotalWeight(cards) <= 0.0 ==> k == 0
    ensures TotalWeight(cards) > 0.0 ==> IsStop(cards, Threshold(cards, u), k)
  {
    if TotalWeight(cards) <= 0.0 then 0
    else
      var k := Scan(cards, Threshold(cards, u));
      if k < |cards| then k else |cards| - 1
  }

  /** `pickWeighted(cards, rng)` where the one value drawn from `rng` is `u`. */
  function PickWeighted(cards: seq<MessageCard>, u: real): (r: Option<MessageCard>)
    ensures r.None? <==> |cards| == 0
    ensures r.Some? ==> r.value in cards
    ensures |cards| > 0 && TotalWeight(cards) <= 0.0 ==> r == Some(cards[0])
    ensures TotalWeight(cards) > 0.0 ==>
      exists k :: IsStop(cards, Threshold(cards, u), k) && r == Some(cards[k])
  {
    if |cards| == 0 then None
    else
      var k := PickIndex(cards, u);
      assert TotalWeight(cards) > 0.0 ==> IsStop(cards, Threshold(cards, u), k);
      Some(cards[k])
  }

  predicate NonNegativeWeights(cards: seq<MessageCard>) {
    forall i | 0 <= i < |cards| :: Weight(cards[i]) >= 0.0
  }

  /** A fraction below one of a positive amount stays below it. */
  lemma FractionBelow(u: real, x: real, p: real)
    requires 0.0 <= u < 1.0 && x > 0.0 && p == u * x
    ensures p < x
  {
    assert x - p == (1.0 - u) * x;
  }

  /** The threshold interval of card `k`: above the weight of the cards
      before it (or anywhere up to it, for the first card) and at most the
      weight up to and including it. */
  predicate InInterval(cards: seq<MessageCard>, t: real, k: int)
    requires 0 <= k < |cards|
  {
    (k == 0 || Prefix(cards, k) < t) && t <= Prefix(cards, k + 1)
  }

  /** The inverse-CDF reading of the selector: with non-negative weights, a
      positive total and `u` in [0, 1), the card at position `k` is returned
      exactly when the threshold `u * total` falls in its interval
      `(Prefix(k), Prefix(k+1)]` (or at most `Prefix(1)` for the first card).
      The interval of card `k` is `weight_k` long, and the fall-through to
      the last card is never needed. */
  lemma CumulativeInterval(cards: seq<MessageCard>, u: real)
    requires NonNegativeWeights(cards)
    requires TotalWeight(cards) > 0.0
    requires 0.0 <= u < 1.0
    ensures |cards| > 0
    ensures PickWeighted(cards, u) == Some(cards[PickIndex(cards, u)])
    ensures forall k | 0 <= k < |cards| ::
      PickIndex(cards, u) == k <==> InInterval(cards, Threshold(cards, u), k)
    ensures forall k | 0 <= k < |cards| :: Prefix(cards, k + 1) - Prefix(cards, k) == Weight(cards[k])
  {
    var t, m := Threshold(cards, u), PickIndex(cards, u);
    ThresholdBelowTotal(cards, u);
    StopInterval(cards, t, m);
    forall k | 0 <= k < |cards| && InInterval(cards, t, k) ensures k == m {
      if m < k {
        PrefixMonotone(cards, m + 1, k);
      }
    }
    forall k | 0 <= k < |cards| ensures Prefix(cards, k + 1) - Prefix(cards, k) == Weight(cards[k]) {
      PrefixSnoc(cards, k);
    }
  }

  /** The running sum gains the weight of each next card. */
  lemma {:induction false} PrefixSnoc(cards: seq<MessageCard>, n: nat)
    requires n < |cards|
    ensures Prefix(cards, n + 1) == Prefix(cards, n) + Weight(cards[n])
  {
    if n > 0 {
      PrefixSnoc(cards[1..], n - 1);
      assert cards[1..][n - 1] == cards[n];
    }
  }

  /** With non-negative weights the running sum never decreases. */
  lemma {:induction false} PrefixMonotone(cards: seq<MessageCard>, i: nat, j: nat)
    requires NonNegativeWeights(cards)
    requires i <= j <= |cards|
    ensures Prefix(cards, i) <= Prefix(cards, j)
    decreases j - i
  {
    if i < j {
      PrefixSnoc(cards, i);
      PrefixMonotone(cards, i + 1, j);
    }
  }

  lemma ThresholdBelowTotal(cards: seq<MessageCard>, u: real)
    requires TotalWeight(cards) > 0.0
    requires 0.0 <= u < 1.0
    ensures Threshold(cards, u) < Prefix(cards, |cards|)
  {
    FractionBelow(u, TotalWeight(cards), Threshold(cards, u));
    PrefixOfAll(cards);
  }

  lemma StopInterval(cards: seq<MessageCard>, t: real, k: int)
    requires IsStop(cards, t, k)
    requires t < Prefix(cards, |cards|)
    ensures k == 0 || Prefix(cards, k) < t
    ensures t <= Prefix(cards, k + 1)
  {
    if k > 0 {
      assert t - Prefix(cards, k) > 0.0;
    }
  }

  /** The intent/tone filter of `pickForIntent`: an absent criterion accepts
      every card. */
  predicate MatchesIntent(c: MessageCard, intent: Option<Category>, tone: Option<Tone>) {
    (intent.None? || c.category == intent.value) && (tone.None? || c.tone == tone.value)
  }

  function FilterCards(cards: seq<MessageCard>, intent: Option<Category>, tone: Option<Tone>)
    : (r: seq<MessageCard>)
    ensures forall c :: c in r <==> c in cards && MatchesIntent(c, intent, tone)
  {
    if |cards| == 0 then []
    else
      var rest := FilterCards(cards[1..], intent, tone);
      assert forall c :: c in cards <==> c == cards[0] || c in cards[1..];
      if MatchesIntent(cards[0], intent, tone) then [cards[0]] + rest else rest
  }

  /** The packs `pickForIntent` draws from: the given ids, or every pack when
      none (or an empty list) is given. */
  function AvailablePacks(packIds: Option<seq<PackId>>): seq<PackId> {
    if packIds.Some? && |packIds.value| > 0 then packIds.value else DefaultPackIds
  }

  /** `pickForIntent({intent, tone, packIds})` with `u` the value drawn from
      `Math.random`. */
  function PickForIntent(packs: Packs, intent: Option<Category>, tone: Option<Tone>,
                         packIds: Option<seq<PackId>>, u: real): (r: Option<MessageCard>)
    ensures r.Some? ==> r.value in AllCards(packs, AvailablePacks(packIds))
    ensures r.Some? ==> intent.Some? ==> r.value.category == intent.value
    ensures r.Some? ==> tone.Some? ==> r.value.tone == tone.value
    ensures r.None? <==>
      forall c | c in AllCards(packs, AvailablePacks(packIds)) :: !MatchesIntent(c, intent, tone)
  {
    var cards := AllCards(packs, AvailablePacks(packIds));
    var filtered := FilterCards(cards, intent, tone);
    assert |filtered| > 0 ==> filtered[0] in filtered;
    PickWeighted(filtered, u)
  }

  /** `cards.find(card => card.id === cardId)`. */
  function FindInCards(cards: seq<MessageCard>, cardId: string): (r: Option<MessageCard>)
    ensures r.None? <==> forall i | 0 <= i < |cards| :: cards[i].id != cardId
    ensures r.Some? ==> exists i | 0 <= i < |cards| ::
      (cards[i] == r.value && cardId == r.value.id && forall j | 0 <= j < i :: cards[j].id != cardId)
  {
    if |cards| == 0 then None
    else if cards[0].id == cardId then Some(cards[0])
    else
      var r := FindInCards(cards[1..], cardId);
      assert forall i | 0 <= i < |cards[1..]| :: cards[1..][i] == cards[i + 1];
      if r.Some? then
        var i :| 0 <= i < |cards[1..]| && cards[1..][i] == r.value && cardId == r.value.id
          && forall j | 0 <= j < i :: cards[1..][j].id != cardId;
        assert cards[i + 1] == r.value;
        r
      else r
  }

  /** The loop of `findCardById`: search pack after pack, in the given order. */
  function FindInPacks(packs: Packs, ids: seq<PackId>, cardId: string): Option<MessageCard>
  {
    if |ids| == 0 then None
    else
      var found := FindInCards(LoadPack(packs, ids[0]), cardId);
      if found.Some? then found else FindInPacks(packs, ids[1..], cardId)
  }

  /** Searching pack by pack is the same as searching the concatenation of
      the packs: the result is the first card with that id. */
  lemma {:induction false} FindInPacksIsFlatSearch(packs: Packs, ids: seq<PackId>, cardId: string)
    ensures FindInPacks(packs, ids, cardId) == FindInCards(AllCards(packs, ids), cardId)
  {
    if |ids| > 0 {
      FindInPacksIsFlatSearch(packs, ids[1..], cardId);
      FindInConcat(LoadPack(packs, ids[0]), AllCards(packs, ids[1..]), cardId);
    }
  }

  lemma {:induction false} FindInConcat(a: seq<MessageCard>, b: seq<MessageCard>, cardId: string)
    ensures FindInCards(a + b, cardId)
      == if FindInCards(a, cardId).Some? then FindInCards(a, cardId) else FindInCards(b, cardId)
  {
    if |a| > 0 {
      assert (a + b)[1..] == a[1..] + b;
      FindInConcat(a[1..], b, cardId);
    } else {
      assert a + b == b;
    }
  }

  /** `findCardById(cardId)`: the first card with that id, searching the
      packs in their default order; absent only when no pack has such a card. */
  function FindCardById(packs: Packs, cardId: string): (r: Option<MessageCard>)
    ensures r.Some? ==> r.value.id == cardId && r.value in AllCards(packs, DefaultPackIds)
    ensures r.None? <==> forall c | c in AllCards(packs, DefaultPackIds) :: c.id != cardId
  {
    FindInPacksIsFlatSearch(packs, DefaultPackIds, cardId);
    var all := AllCards(packs, DefaultPackIds);
    var r := FindInPacks(packs, DefaultPackIds, cardId);
    assert forall c | c in all :: exists i | 0 <= i < |all| :: all[i] == c;
    r
  }
}
