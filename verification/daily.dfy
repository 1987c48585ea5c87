/** The reproducible daily card (`deterministicDailyPick`): the pack list is
    normalised (sorted by name, or the default list when empty), joined with
    the date and the per-installation seed into one string, hashed, and the
    hash seeds the generator whose first value drives the weighted selector. */
module DailyPick {
  import opened Optional
  import opened Strings
  import opened Content
  import Selector
  import Prng

  /** JavaScript's default `sort` order on strings: lexicographic by code
      unit (the pack names are ASCII, where code units and chars agree). */
  predicate NameLe(a: string, b: string)
    decreases |a|
  {
    if |a| == 0 then true
    else if |b| == 0 then false
    else if a[0] != b[0] then a[0] < b[0]
    else NameLe(a[1..], b[1..])
  }

  /** Position of a pack id when the ids are sorted by name:
      career < finance < free < love. */
  function Rank(p: PackId): nat {
    match p
    case Career => 0
    case Finance => 1
    case Free => 2
    case Love => 3
  }

  lemma {:induction false} NameLeReflexive(s: string)
    ensures NameLe(s, s)
    decreases |s|
  {
    if |s| > 0 {
      NameLeReflexive(s[1..]);
    }
  }

  lemma RankFollowsNames(a: PackId, b: PackId)
    ensures Rank(a) <= Rank(b) <==> NameLe(PackName(a), PackName(b))
  {
    NameLeReflexive(PackName(a));
    var x, y := PackName(a), PackName(b);
    if a != b && x[0] == y[0] {
      assert NameLe(x, y) == NameLe(x[1..], y[1..]);
    }
  }

  function Repeat(p: PackId, n: nat): (r: seq<PackId>)
    ensures |r| == n
    ensures forall i | 0 <= i < n :: r[i] == p
  {
    if n == 0 then [] else [p] + Repeat(p, n - 1)
  }

  lemma {:induction false} RepeatCounts(p: PackId, n: nat, q: PackId)
    ensures multiset(Repeat(p, n))[q] == if q == p then n else 0
  {
    if n > 0 {
      RepeatCounts(p, n - 1, q);
      assert Repeat(p, n) == [p] + Repeat(p, n - 1);
    }
  }

  /** Sorting a list of pack ids by name. Over four distinct values a sorted
      permutation is fixed by how often each value occurs, so the result is
      built from the counts. */
  function SortPacks(xs: seq<PackId>): (r: seq<PackId>)
    ensures multiset(r) == multiset(xs)
    ensures forall i, j | 0 <= i < j < |r| :: NameLe(PackName(r[i]), PackName(r[j]))
  {
    var m := multiset(xs);
    var r := Repeat(Career, m[Career]) + Repeat(Finance, m[Finance]) + Repeat(Free, m[Free])
           + Repeat(Love, m[Love]);
    CountsSorted(m[Career], m[Finance], m[Free], m[Love]);
    CountsPermute(xs);
    r
  }

  /** The runs of each id, concatenated in rank order, hold each id as often
      as the input does. */
  lemma CountsPermute(xs: seq<PackId>)
    ensures var m := multiset(xs);
      multiset(Repeat(Career, m[Career]) + Repeat(Finance, m[Finance]) + Repeat(Free, m[Free])
               + Repeat(Love, m[Love])) == m
  {
    var m := multiset(xs);
    var r := Repeat(Career, m[Career]) + Repeat(Finance, m[Finance]) + Repeat(Free, m[Free])
           + Repeat(Love, m[Love]);
    forall q: PackId ensures multiset(r)[q] == m[q] {
      RepeatCounts(Career, m[Career], q);
      RepeatCounts(Finance, m[Finance], q);
      RepeatCounts(Free, m[Free], q);
      RepeatCounts(Love, m[Love], q);
    }
  }

  /** Runs in rank order are in name order. */
  lemma CountsSorted(a: nat, b: nat, c: nat, d: nat)
    ensures var r := Repeat(Career, a) + Repeat(Finance, b) + Repeat(Free, c) + Repeat(Love, d);
      forall i, j | 0 <= i < j < |r| :: NameLe(PackName(r[i]), PackName(r[j]))
  {
    var r := Repeat(Career, a) + Repeat(Finance, b) + Repeat(Free, c) + Repeat(Love, d);
    assert forall i | 0 <= i < |r| ::
      Rank(r[i]) == if i < a then 0 else if i < a + b then 1 else if i < a + b + c then 2 else 3;
    forall i, j | 0 <= i < j < |r| ensures NameLe(PackName(r[i]), PackName(r[j])) {
      RankFollowsNames(r[i], r[j]);
    }
  }

  /** `allowedPackIds.length > 0 ? [...allowedPackIds].sort() : defaultPackIds`. */
  function NormalizePacks(allowed: seq<PackId>): (r: seq<PackId>)
    ensures |allowed| == 0 ==> r == DefaultPackIds
    ensures |allowed| > 0 ==> multiset(r) == multiset(allowed)
    ensures |allowed| > 0 ==> forall i, j | 0 <= i < j < |r| :: NameLe(PackName(r[i]), PackName(r[j]))
  {
    if |allowed| > 0 then SortPacks(allowed) else DefaultPackIds
  }

  function PackNames(ids: seq<PackId>): (names: seq<string>)
    ensures |names| == |ids|
    ensures forall i | 0 <= i < |ids| :: names[i] == PackName(ids[i])
  {
    seq(|ids|, i requires 0 <= i < |ids| => PackName(ids[i]))
  }

  lemma JoinStart(parts: seq<string>, sep: string)
    requires |parts| > 0 && |parts[0]| > 0
    ensures |Join(parts, sep)| > 0 && Join(parts, sep)[0] == parts[0][0]
  {
  }

  /** `${dateISO}|${userSeed}|${normalizedPacks.join(',')}`. */
  function SeedInput(dateISO: string, userSeed: string, normalized: seq<PackId>): string {
    dateISO + "|" + userSeed + "|" + Join(PackNames(normalized), ",")
  }

  /** The packs a daily pick draws from, before sorting. */
  function UsedPacks(allowed: seq<PackId>): seq<PackId> {
    if |allowed| > 0 then allowed else DefaultPackIds
  }

  /** `deterministicDailyPick(dateISO, userSeed, allowedPackIds)`. */
  function DeterministicDailyPick(packs: Packs, dateISO: string, userSeed: string,
                                  allowed: seq<PackId>): (r: Option<MessageCard>)
    ensures r.Some? ==> exists p | p in UsedPacks(allowed) :: r.value in LoadPack(packs, p)
    ensures r.None? <==> forall p | p in UsedPacks(allowed) :: LoadPack(packs, p) == []
  {
    var normalized := NormalizePacks(allowed);
    var seed := Prng.Fnv1a(Prng.Utf16(SeedInput(dateISO, userSeed, normalized)));
    SameMembers(allowed);
    AllCardsFromPacks(packs, normalized);
    Selector.PickWeighted(AllCards(packs, normalized), Prng.FirstOutput(seed))
  }

  lemma SameMembers(allowed: seq<PackId>)
    ensures forall p :: p in NormalizePacks(allowed) <==> p in UsedPacks(allowed)
  {
    if |allowed| > 0 {
      var r := NormalizePacks(allowed);
      assert forall p :: p in r <==> p in multiset(r);
    }
  }

  /** The concatenated cards are empty exactly when every listed pack is,
      and every card comes from one of the listed packs. */
  lemma AllCardsFromPacks(packs: Packs, ids: seq<PackId>)
    ensures |AllCards(packs, ids)| == 0 <==> forall p | p in ids :: LoadPack(packs, p) == []
    ensures forall c | c in AllCards(packs, ids) :: exists p | p in ids :: c in LoadPack(packs, p)
  {
    var cards := AllCards(packs, ids);
    forall c | c in cards ensures exists p | p in ids :: c in LoadPack(packs, p) {
      var i :| 0 <= i < |ids| && c in LoadPack(packs, ids[i]);
      assert ids[i] in ids;
    }
    if |cards| == 0 {
      forall p | p in ids ensures LoadPack(packs, p) == [] {
        var i :| 0 <= i < |ids| && ids[i] == p;
        AllCardsLength(packs, ids, i);
      }
    } else {
      assert cards[0] in cards;
    }
  }

  lemma {:induction false} AllCardsLength(packs: Packs, ids: seq<PackId>, i: int)
    requires 0 <= i < |ids|
    ensures |LoadPack(packs, ids[i])| <= |AllCards(packs, ids)|
  {
    if i > 0 {
      AllCardsLength(packs, ids[1..], i - 1);
    }
  }

  /** The daily pick depends on the allowed packs only as a multiset: any
      reordering of `allowedPackIds` yields the same card. */
  lemma OrderIndependent(packs: Packs, dateISO: string, userSeed: string,
                         a: seq<PackId>, b: seq<PackId>)
    requires multiset(a) == multiset(b)
    ensures DeterministicDailyPick(packs, dateISO, userSeed, a)
         == DeterministicDailyPick(packs, dateISO, userSeed, b)
  {
    assert |a| == |multiset(a)| == |multiset(b)| == |b|;
    assert NormalizePacks(a) == NormalizePacks(b);
  }

  /** An empty pack list falls back to the default list in its declaration
      order (free, love, career, finance), which is not name order; so it
      seeds the generator differently from passing all four packs, which
      are sorted first. */
  lemma EmptyListIsNotAllPacks(dateISO: string, userSeed: string)
    ensures SeedInput(dateISO, userSeed, NormalizePacks([]))
         != SeedInput(dateISO, userSeed, NormalizePacks(DefaultPackIds))
  {
    var prefix := dateISO + "|" + userSeed + "|";
    var sorted := NormalizePacks(DefaultPackIds);
    assert sorted[0] == Career by {
      assert Career in multiset(sorted);
      var j :| 0 <= j < |sorted| && sorted[j] == Career;
      if j > 0 {
        RankFollowsNames(sorted[0], sorted[j]);
      }
    }
    var x := Join(PackNames(NormalizePacks([])), ",");
    var y := Join(PackNames(sorted), ",");
    JoinStart(PackNames(NormalizePacks([])), ",");
    JoinStart(PackNames(sorted), ",");
    assert x[0] == 'f' && y[0] == 'c';
    assert (prefix + x)[|prefix|] == x[0];
    assert (prefix + y)[|prefix|] == y[0];
  }
}
