/** The card spread screen (`app/spread.tsx`): a one- or three-card spread
    drawn without repetition from all four packs, revealed card by card from
    left to right, and saved to the journal once, when every card is shown.

    The random source of `pickWeighted` is a parameter: `rolls(k)` is the
    value in [0, 1) the k-th pick of a spread would use. The draw id and the
    clock reading of the save are parameters too. */
module Spread {
  import opened Optional
  import opened Strings
  import opened Content
  import Selector
  import Journal

  // ---------------------------------------------------------------------
  // Mode and card count.

  /** The two spreads the screen offers. */
  datatype Mode = Single | Three

  /** `params.mode === '1' ? '1' : '3'`. The route parameter is `None` when
      it is absent or not a single string (a repeated parameter is an array,
      which is never equal to `'1'`). */
  function ModeOf(param: Option<string>): (m: Mode)
    ensures m == Single <==> param == Some("1")
  {
    if param == Some("1") then Single else Three
  }

  /** How many cards the spread holds. */
  function CardCount(m: Mode): nat {
    if m == Single then 1 else 3
  }

  /** The caption above each card position. */
  function Labels(m: Mode): seq<string> {
    if m == Single then ["Card"] else ["Past", "Present", "Next"]
  }

  /** The journal's name for the spread. */
  function ModeName(m: Mode): string {
    if m == Single then "spread1" else "spread3"
  }

  /** Every card position has a caption, and only the single-card spread is
      stored as `spread1`. */
  lemma CountFollowsMode(param: Option<string>)
    ensures CardCount(ModeOf(param)) == if param == Some("1") then 1 else 3
    ensures |Labels(ModeOf(param))| == CardCount(ModeOf(param))
    ensures ModeName(ModeOf(param)) == "spread1" <==> param == Some("1")
  {
  }

  // ---------------------------------------------------------------------
  // Drawing distinct cards.

  /** The cards a spread draws from: every pack, in the order free, love,
      career, finance. */
  function SpreadPool(packs: Packs): seq<MessageCard> {
    AllCards(packs, DefaultPackIds)
  }

  /** `pool.findIndex(item => item.id === id)`: the first position holding
      the id, or -1. */
  function FindIndex(pool: seq<MessageCard>, id: string): (k: int)
    ensures -1 <= k < |pool|
    ensures k >= 0 ==> pool[k].id == id && forall j | 0 <= j < k :: pool[j].id != id
    ensures k < 0 ==> forall j | 0 <= j < |pool| :: pool[j].id != id
  {
    if |pool| == 0 then -1
    else if pool[0].id == id then 0
    else
      var k := FindIndex(pool[1..], id);
      if k < 0 then -1 else k + 1
  }

  /** `pool.splice(k, 1)`. */
  function RemoveAt(pool: seq<MessageCard>, k: nat): (r: seq<MessageCard>)
    requires k < |pool|
    ensures |r| == |pool| - 1
  {
    pool[..k] + pool[k + 1..]
  }

  /** Removing one position keeps every other card, in order, and drops
      exactly one copy of the removed card. */
  lemma RemoveAtFacts(pool: seq<MessageCard>, k: nat)
    requires k < |pool|
    ensures multiset(RemoveAt(pool, k)) + multiset{pool[k]} == multiset(pool)
    ensures forall i | 0 <= i < |RemoveAt(pool, k)| ::
      RemoveAt(pool, k)[i] == if i < k then pool[i] else pool[i + 1]
  {
    assert pool[..k + 1] == pool[..k] + [pool[k]];
    assert pool == pool[..k + 1] + pool[k + 1..];
  }

  /** No card of `a` shares its id with a card of `b`. */
  predicate Disjoint(a: seq<MessageCard>, b: seq<MessageCard>) {
    forall i, j | 0 <= i < |a| && 0 <= j < |b| :: a[i].id != b[j].id
  }

  /** With unique ids, the first position holding the id of a pool card
      holds that card. */
  lemma FoundIsPicked(pool: seq<MessageCard>, card: MessageCard)
    requires UniqueIds(pool) && card in pool
    ensures 0 <= FindIndex(pool, card.id) && pool[FindIndex(pool, card.id)] == card
  {
    var m :| 0 <= m < |pool| && pool[m] == card;
    var k := FindIndex(pool, card.id);
    assert 0 <= k <= m && pool[k].id == pool[m].id;
  }

  /** Removing a position keeps the remaining ids unique and apart from the
      removed card's id. */
  lemma RemoveKeepsUnique(pool: seq<MessageCard>, k: nat)
    requires k < |pool| && UniqueIds(pool)
    ensures UniqueIds(RemoveAt(pool, k))
    ensures forall j | 0 <= j < |RemoveAt(pool, k)| :: RemoveAt(pool, k)[j].id != pool[k].id
  {
    var rest := RemoveAt(pool, k);
    RemoveAtFacts(pool, k);
    forall i, j | 0 <= i < j < |rest| ensures rest[i].id != rest[j].id {
      var pi := if i < k then i else i + 1;
      var pj := if j < k then j else j + 1;
      assert rest[i] == pool[pi] && rest[j] == pool[pj] && pi < pj;
    }
    forall j | 0 <= j < |rest| ensures rest[j].id != pool[k].id {
      var pj := if j < k then j else j + 1;
      assert rest[j] == pool[pj] && pj != k;
    }
  }

  /** Moving pool position `k` to the end of the selection keeps the
      selection's ids unique and apart from the pool's. */
  lemma MoveKeepsDisjoint(selected: seq<MessageCard>, pool: seq<MessageCard>, k: nat)
    requires k < |pool|
    requires UniqueIds(pool) && UniqueIds(selected) && Disjoint(selected, pool)
    ensures UniqueIds(selected + [pool[k]])
    ensures Disjoint(selected + [pool[k]], RemoveAt(pool, k))
  {
    var rest := RemoveAt(pool, k);
    var sel := selected + [pool[k]];
    RemoveAtFacts(pool, k);
    RemoveKeepsUnique(pool, k);
    forall i, j | 0 <= i < j < |sel| ensures sel[i].id != sel[j].id {
      if j == |selected| {
        assert sel[i] == selected[i];
      }
    }
    forall i, j | 0 <= i < |sel| && 0 <= j < |rest| ensures sel[i].id != rest[j].id {
      if i < |selected| {
        var pj := if j < k then j else j + 1;
        assert sel[i] == selected[i] && rest[j] == pool[pj];
      }
    }
  }

  /** One step of the loop, when ids are unique: the position found by id
      holds the picked card itself, and moving it from the pool to the
      selection keeps both free of repeated ids, apart from each other, and
      together the same cards as before. */
  lemma StepKeepsUnique(selected: seq<MessageCard>, pool: seq<MessageCard>, card: MessageCard)
    requires UniqueIds(pool) && UniqueIds(selected) && Disjoint(selected, pool)
    requires card in pool
    ensures FindIndex(pool, card.id) >= 0
    ensures var k := FindIndex(pool, card.id);
      && UniqueIds(selected + [card])
      && UniqueIds(RemoveAt(pool, k))
      && Disjoint(selected + [card], RemoveAt(pool, k))
      && multiset(selected + [card]) + multiset(RemoveAt(pool, k))
         == multiset(selected) + multiset(pool)
  {
    FoundIsPicked(pool, card);
    var k := FindIndex(pool, card.id);
    RemoveAtFacts(pool, k);
    RemoveKeepsUnique(pool, k);
    MoveKeepsDisjoint(selected, pool, k);
  }

  /** The bookkeeping of the loop: selection and pool together account for
      the cards drawn from; with unique ids they split them exactly. */
  predicate Drawn(all: seq<MessageCard>, selected: seq<MessageCard>, pool: seq<MessageCard>) {
    && |selected| + |pool| == |all|
    && (forall i | 0 <= i < |selected| :: selected[i] in all)
    && (forall c | c in pool :: c in all)
    && (UniqueIds(all) ==>
          && UniqueIds(pool) && UniqueIds(selected) && Disjoint(selected, pool)
          && multiset(selected) + multiset(pool) == multiset(all))
  }

  /** Moving a picked pool card to the selection keeps the bookkeeping. */
  lemma DrawStep(all: seq<MessageCard>, selected: seq<MessageCard>, pool: seq<MessageCard>,
                 card: MessageCard)
    requires Drawn(all, selected, pool) && card in pool
    ensures FindIndex(pool, card.id) >= 0
    ensures Drawn(all, selected + [card], RemoveAt(pool, FindIndex(pool, card.id)))
  {
    var m :| 0 <= m < |pool| && pool[m] == card;
    var k := FindIndex(pool, card.id);
    assert k >= 0;
    var rest := RemoveAt(pool, k);
    RemoveAtFacts(pool, k);
    forall c | c in rest ensures c in all {
      var j :| 0 <= j < |rest| && rest[j] == c;
      assert c == pool[if j < k then j else j + 1];
    }
    if UniqueIds(all) {
      StepKeepsUnique(selected, pool, card);
    }
  }

  /** `pickUniqueCards(count)`: weighted picks from a shrinking pool until
      `count` cards are chosen or the pool is empty. After each pick the
      first pool card with the picked id is removed. (The loop's
      `if (!card) break` cannot fire: the selector returns a card for any
      non-empty pool.) */
  method PickUniqueCards(packs: Packs, count: int, rolls: nat -> real)
    returns (selected: seq<MessageCard>)
    ensures var all := SpreadPool(packs);
      |selected| == if count <= 0 then 0 else if count < |all| then count else |all|
    ensures forall i | 0 <= i < |selected| :: selected[i] in SpreadPool(packs)
    ensures count > 0 && |SpreadPool(packs)| > 0 ==>
      selected[0] == Selector.PickWeighted(SpreadPool(packs), rolls(0)).value
    ensures UniqueIds(SpreadPool(packs)) ==>
      UniqueIds(selected) && multiset(selected) <= multiset(SpreadPool(packs))
  {
    var all := SpreadPool(packs);
    var pool := all;
    selected := [];
    while |pool| > 0 && |selected| < count
      invariant Drawn(all, selected, pool)
      invariant |selected| == 0 || |selected| <= count
      invariant |selected| == 0 ==> pool == all
      invariant |selected| > 0 ==> selected[0] == Selector.PickWeighted(all, rolls(0)).value
      decreases |pool|
    {
      var card := Selector.PickWeighted(pool, rolls(|selected|)).value;
      DrawStep(all, selected, pool, card);
      var index := FindIndex(pool, card.id);
      selected := selected + [card];
      pool := RemoveAt(pool, index);
    }
  }

  // ---------------------------------------------------------------------
  // Revealing the cards.

  /** `revealed[i]` in JavaScript: an index outside the array reads
      `undefined`, which counts as false. */
  function Shown(revealed: seq<bool>, i: int): bool {
    0 <= i < |revealed| && revealed[i]
  }

  /** `handleReveal(index)`: a card already shown, or one whose left
      neighbour is still hidden, is left alone; otherwise the entry at
      `index` becomes true (which changes nothing when `index` is outside
      the array). */
  function HandleReveal(revealed: seq<bool>, index: int): (r: seq<bool>)
    ensures |r| == |revealed|
    ensures forall j | 0 <= j < |r| && j != index :: r[j] == revealed[j]
    ensures 0 <= index < |revealed| ==>
      (r[index] <==> revealed[index] || index == 0 || revealed[index - 1])
  {
    if Shown(revealed, index) then revealed
    else if index > 0 && !Shown(revealed, index - 1) then revealed
    else seq(|revealed|, j requires 0 <= j < |revealed| => j == index || revealed[j])
  }

  /** The shown cards form a prefix: a shown card has only shown cards to
      its left. */
  predicate LeftToRight(revealed: seq<bool>) {
    forall i, j | 0 <= i < j < |revealed| :: revealed[j] ==> revealed[i]
  }

  /** The number of shown cards at the left end. */
  function Leading(revealed: seq<bool>): (n: nat)
    ensures n <= |revealed|
  {
    if |revealed| == 0 || !revealed[0] then 0 else 1 + Leading(revealed[1..])
  }

  /** In a left-to-right state, exactly the first `Leading` cards are shown. */
  lemma {:induction false} LeadingShown(revealed: seq<bool>)
    requires LeftToRight(revealed)
    ensures forall j | 0 <= j < |revealed| :: revealed[j] <==> j < Leading(revealed)
  {
    if |revealed| > 0 && revealed[0] {
      var tail := revealed[1..];
      assert LeftToRight(tail) by {
        forall i, j | 0 <= i < j < |tail| && tail[j] ensures tail[i] {
          assert revealed[j + 1] && revealed[i + 1] == tail[i];
        }
      }
      LeadingShown(tail);
      forall j | 0 <= j < |revealed| ensures revealed[j] <==> j < Leading(revealed) {
        if j > 0 {
          assert revealed[j] == tail[j - 1];
        }
      }
    }
  }

  /** A state whose first `k` cards are shown and the rest hidden has
      `Leading` equal to `k`. */
  lemma {:induction false} LeadingExact(revealed: seq<bool>, k: nat)
    requires k <= |revealed|
    requires forall j | 0 <= j < |revealed| :: revealed[j] <==> j < k
    ensures Leading(revealed) == k
  {
    if k > 0 {
      var tail := revealed[1..];
      forall j | 0 <= j < |tail| ensures tail[j] <==> j < k - 1 {
        assert tail[j] == revealed[j + 1];
      }
      LeadingExact(tail, k - 1);
    }
  }

  /** In a left-to-right state a tap changes something exactly when it hits
      the first hidden card; it then shows one more card and the state stays
      left-to-right. */
  lemma RevealStep(revealed: seq<bool>, index: int)
    requires LeftToRight(revealed)
    ensures var r := HandleReveal(revealed, index);
      && LeftToRight(r)
      && (r != revealed <==> index == Leading(revealed) < |revealed|)
      && Leading(r) == if r != revealed then Leading(revealed) + 1 else Leading(revealed)
  {
    var r := HandleReveal(revealed, index);
    var n := Leading(revealed);
    LeadingShown(revealed);
    if index == n < |revealed| {
      assert r[index] != revealed[index];
      forall j | 0 <= j < |r| ensures r[j] <==> j < n + 1 {
      }
      LeadingExact(r, n + 1);
    } else {
      assert r == revealed by {
        forall j | 0 <= j < |r| ensures r[j] == revealed[j] {
          if j == index {
            assert index < n || index > n;
          }
        }
      }
    }
  }

  /** A sequence of taps, applied in order. */
  function ApplyTaps(revealed: seq<bool>, taps: seq<int>): (r: seq<bool>)
    ensures |r| == |revealed|
    decreases |taps|
  {
    if |taps| == 0 then revealed
    else ApplyTaps(HandleReveal(revealed, taps[0]), taps[1..])
  }

  /** Any sequence of taps keeps the shown cards a prefix, and each tap
      shows at most one more card. */
  lemma {:induction false} TapsInOrder(revealed: seq<bool>, taps: seq<int>)
    requires LeftToRight(revealed)
    ensures LeftToRight(ApplyTaps(revealed, taps))
    ensures Leading(revealed) <= Leading(ApplyTaps(revealed, taps)) <= Leading(revealed) + |taps|
    decreases |taps|
  {
    if |taps| > 0 {
      RevealStep(revealed, taps[0]);
      TapsInOrder(HandleReveal(revealed, taps[0]), taps[1..]);
    }
  }

  /** The initial state of a spread of `n` cards: all hidden. */
  function Hidden(n: nat): (r: seq<bool>)
    ensures |r| == n && LeftToRight(r) && Leading(r) == 0
  {
    var r := seq(n, j requires 0 <= j < n => false);
    LeadingExact(r, 0);
    r
  }

  /** Tapping the cards from left to right shows them all. */
  lemma {:induction false} LeftToRightTapsShowAll(n: nat, k: nat)
    requires k <= n
    ensures Leading(ApplyTaps(Hidden(n), seq(k, i requires 0 <= i < k => i))) == k
    decreases k
  {
    if k > 0 {
      var first := seq(k - 1, i requires 0 <= i < k - 1 => i);
      var taps := seq(k, i requires 0 <= i < k => i);
      LeftToRightTapsShowAll(n, k - 1);
      TapsSplit(Hidden(n), first, k - 1);
      assert taps == first + [k - 1];
      TapsInOrder(Hidden(n), first);
      RevealStep(ApplyTaps(Hidden(n), first), k - 1);
    }
  }

  /** Applying taps and then one more tap. */
  lemma {:induction false} TapsSplit(revealed: seq<bool>, taps: seq<int>, last: int)
    ensures ApplyTaps(revealed, taps + [last]) == HandleReveal(ApplyTaps(revealed, taps), last)
    decreases |taps|
  {
    if |taps| > 0 {
      assert (taps + [last])[1..] == taps[1..] + [last];
      TapsSplit(HandleReveal(revealed, taps[0]), taps[1..], last);
    }
  }

  // ---------------------------------------------------------------------
  // Saving the spread.

  /** The condition of the saving effect: at least one card, every card
      shown, and not saved yet. */
  predicate ShouldSave(revealed: seq<bool>, isSaved: bool, cards: seq<MessageCard>) {
    && |revealed| > 0
    && (forall j | 0 <= j < |revealed| :: revealed[j])
    && !isSaved
    && |cards| > 0
  }

  /** The pack part of a card id: the text before the first `-`
      (`card.id.split('-')[0]`). */
  function IdPrefix(id: string): string {
    Split(id, '-')[0]
  }

  /** A card id `<pack>-<rest>` yields its pack's name. */
  lemma PackOfCardId(p: PackId, rest: string)
    ensures IdPrefix(PackName(p) + "-" + rest) == PackName(p)
  {
    SplitAfterPiece(PackName(p), '-', rest);
  }

  /** The values of a list without repeats, each kept where it first
      occurs (`Array.from(new Set(xs))`). */
  function Distinct(xs: seq<string>): (r: seq<string>)
    ensures |r| <= |xs|
  {
    if |xs| == 0 then []
    else
      var d := Distinct(xs[..|xs| - 1]);
      if xs[|xs| - 1] in d then d else d + [xs[|xs| - 1]]
  }

  /** The position where a value first occurs. */
  function First(xs: seq<string>, x: string): (k: nat)
    requires x in xs
    ensures k < |xs| && xs[k] == x
    ensures forall j | 0 <= j < k :: xs[j] != x
  {
    if x in xs[..|xs| - 1] then First(xs[..|xs| - 1], x) else |xs| - 1
  }

  /** `Distinct` keeps exactly the values of its input. */
  lemma {:induction false} DistinctMembers(xs: seq<string>)
    ensures forall x :: x in Distinct(xs) <==> x in xs
  {
    if |xs| > 0 {
      var init := xs[..|xs| - 1];
      DistinctMembers(init);
      assert xs == init + [xs[|xs| - 1]];
    }
  }

  /** `Distinct` holds no value twice. */
  lemma {:induction false} DistinctNoRepeats(xs: seq<string>)
    ensures forall i, j | 0 <= i < j < |Distinct(xs)| :: Distinct(xs)[i] != Distinct(xs)[j]
  {
    if |xs| > 0 {
      DistinctNoRepeats(xs[..|xs| - 1]);
    }
  }

  /** `Distinct` lists the values in the order of their first occurrence. */
  lemma {:induction false} DistinctFirstOrder(xs: seq<string>)
    ensures forall x | x in Distinct(xs) :: x in xs
    ensures forall i, j | 0 <= i < j < |Distinct(xs)| ::
      First(xs, Distinct(xs)[i]) < First(xs, Distinct(xs)[j])
  {
    DistinctMembers(xs);
    if |xs| > 0 {
      var init := xs[..|xs| - 1];
      var last := xs[|xs| - 1];
      var d := Distinct(init);
      DistinctFirstOrder(init);
      DistinctMembers(init);
      forall x | x in init ensures First(xs, x) == First(init, x) {
        assert xs[..|xs| - 1] == init;
      }
      var r := Distinct(xs);
      forall i, j | 0 <= i < j < |r| ensures First(xs, r[i]) < First(xs, r[j]) {
        if j < |d| {
          assert r[i] == d[i] && r[j] == d[j];
        } else {
          assert r[i] == d[i] && r[i] in init && r[j] == last && last !in init;
          assert First(xs, last) == |xs| - 1;
        }
      }
    }
  }

  /** The prefixes of the card ids, card by card. */
  function IdPrefixes(cards: seq<MessageCard>): (r: seq<string>)
    ensures |r| == |cards|
    ensures forall i | 0 <= i < |cards| :: r[i] == IdPrefix(cards[i].id)
  {
    seq(|cards|, i requires 0 <= i < |cards| => IdPrefix(cards[i].id))
  }

  /** The `packIds` a saved spread records: exactly the pack prefixes of
      the cards, each once, in the order the cards first show them. */
  function PackIdsOf(cards: seq<MessageCard>): (r: seq<string>)
    ensures forall i | 0 <= i < |r| :: r[i] in IdPrefixes(cards)
    ensures forall i | 0 <= i < |cards| :: IdPrefix(cards[i].id) in r
    ensures forall i, j | 0 <= i < j < |r| :: r[i] != r[j]
    ensures forall i, j | 0 <= i < j < |r| ::
      First(IdPrefixes(cards), r[i]) < First(IdPrefixes(cards), r[j])
  {
    var ps := IdPrefixes(cards);
    DistinctMembers(ps);
    DistinctNoRepeats(ps);
    DistinctFirstOrder(ps);
    assert forall i | 0 <= i < |cards| :: ps[i] in ps;
    Distinct(ps)
  }

  /** The card ids, in spread order (`cards.map(card => card.id)`). */
  function CardIds(cards: seq<MessageCard>): (r: seq<string>)
    ensures |r| == |cards|
    ensures forall i | 0 <= i < |cards| :: r[i] == cards[i].id
  {
    seq(|cards|, i requires 0 <= i < |cards| => cards[i].id)
  }

  /** The journal entry the screen writes: the spread's mode name, the card
      and pack ids, no question, no note, not the daily card. */
  function SpreadDraw(drawId: string, now: int, m: Mode, cards: seq<MessageCard>): Journal.Draw {
    Journal.Draw(drawId, now, ModeName(m), CardIds(cards), PackIdsOf(cards), None, None, false)
  }

  /** The state the screen keeps for one spread. */
  datatype Screen = Screen(mode: Mode, cards: seq<MessageCard>, revealed: seq<bool>, isSaved: bool)

  /** The effect on `[mode]`: a new selection, all hidden, not saved. */
  function Start(m: Mode, selection: seq<MessageCard>): (s: Screen)
    ensures s.mode == m && s.cards == selection && !s.isSaved
    ensures |s.revealed| == |selection| && forall i | 0 <= i < |s.revealed| :: !s.revealed[i]
    ensures LeftToRight(s.revealed) && Leading(s.revealed) == 0
  {
    Screen(m, selection, Hidden(|selection|), false)
  }

  /** A tap on card `index`. */
  function Tap(s: Screen, index: int): Screen {
    s.(revealed := HandleReveal(s.revealed, index))
  }

  /** The saving effect: when the condition holds, the draw is added and the
      spread marked saved; a refused insert leaves both unchanged. */
  function SaveEffect(db: Journal.Db, s: Screen, drawId: string, now: int): (r: (Journal.Db, Screen))
    ensures r.1 == s || r.1 == s.(isSaved := true)
    ensures r.0 != db <==> r.1 != s
    ensures r.1 != s <==> (ShouldSave(s.revealed, s.isSaved, s.cards)
      && Journal.AddDraw(db, SpreadDraw(drawId, now, s.mode, s.cards)).Ok?)
    ensures r.1 != s ==> r.0 == Journal.AddDraw(db, SpreadDraw(drawId, now, s.mode, s.cards)).value
  {
    if !ShouldSave(s.revealed, s.isSaved, s.cards) then (db, s)
    else
      match Journal.AddDraw(db, SpreadDraw(drawId, now, s.mode, s.cards))
      case Ok(db2) =>
        assert |db2.draws| == |db.draws| + 1 by {
          assert |multiset(db2.draws)| == |multiset(db.draws)| + 1;
        }
        (db2, s.(isSaved := true))
      case Err(_) => (db, s)
  }

  /** A spread is saved at most once: after a save that stored the draw,
      the effect stores nothing more, whatever id and time it is given. */
  lemma SavedOnce(db: Journal.Db, s: Screen, id1: string, t1: int, id2: string, t2: int)
    ensures var (db1, s1) := SaveEffect(db, s, id1, t1);
      s1 != s ==> SaveEffect(db1, s1, id2, t2) == (db1, s1)
  {
  }

  /** Saving needs every card shown, so a fresh spread of `n` cards is not
      saved before `n` taps. */
  lemma SaveNeedsEveryTap(cards: seq<MessageCard>, taps: seq<int>)
    requires |cards| > 0
    ensures ShouldSave(ApplyTaps(Hidden(|cards|), taps), false, cards) ==> |taps| >= |cards|
  {
    var revealed := ApplyTaps(Hidden(|cards|), taps);
    TapsInOrder(Hidden(|cards|), taps);
    LeadingShown(revealed);
    if ShouldSave(revealed, false, cards) {
      assert revealed[|cards| - 1];
    }
  }

  /** Tapping a fresh spread's cards from left to right makes it due for
      saving. */
  lemma SaveAfterLeftToRightTaps(cards: seq<MessageCard>)
    requires |cards| > 0
    ensures ShouldSave(ApplyTaps(Hidden(|cards|), seq(|cards|, i requires 0 <= i < |cards| => i)),
                       false, cards)
  {
    var n := |cards|;
    var taps := seq(n, i requires 0 <= i < n => i);
    LeftToRightTapsShowAll(n, n);
    TapsInOrder(Hidden(n), taps);
    LeadingShown(ApplyTaps(Hidden(n), taps));
  }

  /** The saved draw reads back from the journal as it was written, with
      the card ids in spread order. */
  lemma SavedDrawReadsBack(db: Journal.Db, m: Mode, cards: seq<MessageCard>, drawId: string, now: int)
    requires !Journal.HasDraw(db, drawId)
    ensures var d := SpreadDraw(drawId, now, m, cards);
      && Journal.AddDraw(db, d).Ok?
      && Journal.GetDraw(Journal.AddDraw(db, d).value, drawId) == Some(d)
      && d.cardIds == CardIds(cards)
  {
    Journal.AddThenGet(db, SpreadDraw(drawId, now, m, cards), drawId);
  }
}
