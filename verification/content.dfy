/** Message cards and the four static packs they come in. The pack contents
    are data the application ships with; here they are an abstract `Packs`
    value that every operation takes as a parameter. */
module Content {

  datatype PackId = Free | Love | Career | Finance

  datatype Category =
    | Ritual | Reflection | Action | Grounding | Connection | Focus | Growth | Clarity

  datatype Tone = Soft | Bold | Neutral | Uplifting | Steady

  /** A card; `weight` is optional in the pack data and counts as 1 when absent. */
  datatype MessageCard = MessageCard(
    id: string,
    text: string,
    category: Category,
    tone: Tone,
    weight: WeightField)

  datatype WeightField = Unweighted | Weighted(w: real)

  /** The contents of the four packs. */
  datatype Packs = Packs(
    free: seq<MessageCard>,
    love: seq<MessageCard>,
    career: seq<MessageCard>,
    finance: seq<MessageCard>)

  /** The wire name of a pack id. */
  function PackName(p: PackId): string {
    match p
    case Free => "free"
    case Love => "love"
    case Career => "career"
    case Finance => "finance"
  }

  /** The pack ids in the key order of the pack table. */
  const DefaultPackIds: seq<PackId> := [Free, Love, Career, Finance]

  function LoadPack(packs: Packs, p: PackId): seq<MessageCard> {
    match p
    case Free => packs.free
    case Love => packs.love
    case Career => packs.career
    case Finance => packs.finance
  }

  /** `ids.flatMap(loadPack)`: the cards of the listed packs, pack by pack. */
  function AllCards(packs: Packs, ids: seq<PackId>): (cards: seq<MessageCard>)
    ensures forall c :: c in cards <==> exists i | 0 <= i < |ids| :: c in LoadPack(packs, ids[i])
  {
    if |ids| == 0 then []
    else
      var rest := AllCards(packs, ids[1..]);
      assert forall i | 0 <= i < |ids[1..]| :: ids[1..][i] == ids[i + 1];
      LoadPack(packs, ids[0]) + rest
  }

  /** No two cards in the sequence share an id. */
  predicate UniqueIds(cards: seq<MessageCard>) {
    forall i, j | 0 <= i < j < |cards| :: cards[i].id != cards[j].id
  }
}
