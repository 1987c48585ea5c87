/** The journal store (`journalRepo.ts`) over two in-memory tables: the
    `draws` rows, whose id is the primary key, and the `favorites` rows, one
    per mark of a draw as favourite, whose id is also a primary key. A row
    keeps the card and pack id lists as JSON text and the daily flag as an
    integer; reading a row back decodes both.

    Clock readings (`Date.now()`) and generated ids are parameters. A
    statement that breaks a primary key is an error result. */
module Journal {
  import opened Optional
  import opened Strings
  import JsonArray
  import Rows

  /** A draw as the application sees it (`DrawInput` / `DrawRecord`); an
      absent question or note is `None`, which the store keeps as `NULL`. */
  datatype Draw = Draw(
    id: string,
    createdAt: int,
    mode: string,
    cardIds: seq<string>,
    packIds: seq<string>,
    question: Option<string>,
    note: Option<string>,
    isDaily: bool)

  /** A row of the `draws` table (`DrawRow`). */
  datatype DrawRow = DrawRow(
    id: string,
    createdAt: int,
    mode: string,
    cardIds: string,
    packIds: string,
    question: Option<string>,
    note: Option<string>,
    isDaily: int)

  /** A row of the `favorites` table. */
  datatype FavoriteRow = FavoriteRow(id: string, drawId: string, createdAt: int)

  datatype Db = Db(draws: seq<DrawRow>, favorites: seq<FavoriteRow>)

  /** The statement was refused because the key is already in the table. */
  datatype DbError = PrimaryKeyConflict(key: string)

  /** The parameters of the `INSERT` in `addDraw`. */
  function ToRow(d: Draw): DrawRow {
    DrawRow(d.id, d.createdAt, d.mode, JsonArray.SerializeArray(d.cardIds),
            JsonArray.SerializeArray(d.packIds), d.question, d.note, if d.isDaily then 1 else 0)
  }

  /** `mapRowToDraw(row)`: the id lists decoded, the daily flag true for any
      non-zero integer. */
  function MapRowToDraw(row: DrawRow): (d: Draw)
    ensures d.id == row.id && d.createdAt == row.createdAt
    ensures d.isDaily <==> row.isDaily != 0
  {
    Draw(row.id, row.createdAt, row.mode, JsonArray.ParseArray(row.cardIds),
         JsonArray.ParseArray(row.packIds), row.question, row.note, row.isDaily != 0)
  }

  /** Storing a draw and reading the row back loses nothing. */
  lemma RowRoundTrip(d: Draw)
    ensures MapRowToDraw(ToRow(d)) == d
  {
  }

  function MapRows(rows: seq<DrawRow>): (r: seq<Draw>)
    ensures |r| == |rows|
    ensures forall i | 0 <= i < |rows| :: r[i] == MapRowToDraw(rows[i])
  {
    seq(|rows|, i requires 0 <= i < |rows| => MapRowToDraw(rows[i]))
  }

  // ---------------------------------------------------------------------
  // The draws table.

  predicate HasDraw(db: Db, id: string) {
    exists i | 0 <= i < |db.draws| :: db.draws[i].id == id
  }

  /** The primary keys of both tables are unique. */
  predicate WellFormed(db: Db) {
    && (forall i, j | 0 <= i < j < |db.draws| :: db.draws[i].id != db.draws[j].id)
    && (forall i, j | 0 <= i < j < |db.favorites| :: db.favorites[i].id != db.favorites[j].id)
  }

  /** `addDraw(draw)`: one new row at the end of the table, refused when the
      id is already taken. */
  function AddDraw(db: Db, d: Draw): (r: Result<Db, DbError>)
    ensures r.Err? <==> HasDraw(db, d.id)
    ensures r.Ok? ==> r.value.favorites == db.favorites
    ensures r.Ok? ==> multiset(r.value.draws) == multiset(db.draws) + multiset{ToRow(d)}
    ensures r.Ok? && WellFormed(db) ==> WellFormed(r.value)
  {
    if HasDraw(db, d.id) then Err(PrimaryKeyConflict(d.id))
    else Ok(db.(draws := db.draws + [ToRow(d)]))
  }

  function RowId(row: DrawRow): string {
    row.id
  }

  /** The first row with the given id (`WHERE id = ?`, first row). */
  function FindRow(rows: seq<DrawRow>, id: string): Option<DrawRow> {
    Rows.FirstWith(rows, RowId, id)
  }

  /** `getDraw(id)`: the draw with that id, or `None` when there is none. */
  function GetDraw(db: Db, id: string): (r: Option<Draw>)
    ensures r.None? <==> !HasDraw(db, id)
    ensures r.Some? ==> r.value.id == id
    ensures r.Some? ==> exists i | 0 <= i < |db.draws| :: r.value == MapRowToDraw(db.draws[i])
  {
    var row := FindRow(db.draws, id);
    if row.Some? then Some(MapRowToDraw(row.value)) else None
  }

  /** A draw that was added reads back as it was given, and the other draws
      read back as before. */
  lemma AddThenGet(db: Db, d: Draw, other: string)
    requires AddDraw(db, d).Ok?
    ensures GetDraw(AddDraw(db, d).value, d.id) == Some(d)
    ensures other != d.id ==> GetDraw(AddDraw(db, d).value, other) == GetDraw(db, other)
  {
    Rows.FirstWithAppend(db.draws, ToRow(d), RowId, d.id);
    Rows.FirstWithAppend(db.draws, ToRow(d), RowId, other);
    RowRoundTrip(d);
  }

  // ---------------------------------------------------------------------
  // Listing.

  const DefaultLimit: int := 50

  /** `options.searchText?.trim()`, with blank text meaning no search. */
  function SearchTerm(searchText: Option<string>): (t: Option<string>)
    ensures t.Some? ==> |t.value| > 0
  {
    if searchText.Some? && |Trim(searchText.value)| > 0 then Some(Trim(searchText.value)) else None
  }

  /** `question LIKE '%term%' OR note LIKE '%term%'`, as a plain substring
      test; a `NULL` question or note never matches. */
  predicate MatchesTerm(row: DrawRow, term: string) {
    (row.question.Some? && Contains(row.question.value, term))
    || (row.note.Some? && Contains(row.note.value, term))
  }

  predicate Keep(row: DrawRow, term: Option<string>) {
    term.None? || MatchesTerm(row, term.value)
  }

  function RowCreatedAt(row: DrawRow): int {
    row.createdAt
  }

  function DrawCreatedAt(d: Draw): int {
    d.createdAt
  }

  /** The rows a listing draws from: the matching rows, newest first. */
  function Listed(db: Db, term: Option<string>): seq<DrawRow> {
    Rows.SortDesc(Rows.Filter(db.draws, row => Keep(row, term)), RowCreatedAt)
  }

  lemma ListedSorted(db: Db, term: Option<string>)
    ensures Rows.SortedDesc(Listed(db, term), RowCreatedAt)
  {
    Rows.SortDescSorted(Rows.Filter(db.draws, row => Keep(row, term)), RowCreatedAt);
  }

  /** The listing holds exactly the rows that match. */
  lemma ListedMembers(db: Db, term: Option<string>)
    ensures forall row :: row in Listed(db, term) <==> row in db.draws && Keep(row, term)
  {
    var matching := Rows.Filter(db.draws, row => Keep(row, term));
    Rows.FilterMembers(db.draws, row => Keep(row, term));
    Rows.SortDescSorted(matching, RowCreatedAt);
    var rows := Listed(db, term);
    assert forall row :: row in rows <==> row in multiset(rows);
    assert forall row :: row in matching <==> row in multiset(matching);
  }

  /** `listDraws({limit, offset, searchText})`: the matching draws newest
      first, skipping `offset` of them (default 0) and returning at most
      `limit` (default 50). */
  function ListDraws(db: Db, limit: Option<int>, offset: Option<int>, searchText: Option<string>)
    : (r: seq<Draw>)
    ensures limit.GetOr(DefaultLimit) >= 0 ==> |r| <= limit.GetOr(DefaultLimit)
    ensures var n := |Listed(db, SearchTerm(searchText))|;
      var o := Rows.Start(n, offset.GetOr(0));
      var l := limit.GetOr(DefaultLimit);
      |r| == if l < 0 || o + l >= n then n - o else l
  {
    var rows := Listed(db, SearchTerm(searchText));
    Page(rows, limit.GetOr(DefaultLimit), offset.GetOr(0))
  }

  /** The listing is newest first. */
  lemma ListDrawsSorted(db: Db, limit: Option<int>, offset: Option<int>, searchText: Option<string>)
    ensures Rows.SortedDesc(ListDraws(db, limit, offset, searchText), DrawCreatedAt)
  {
    var rows := Listed(db, SearchTerm(searchText));
    ListedSorted(db, SearchTerm(searchText));
    PageSorted(rows, limit.GetOr(DefaultLimit), offset.GetOr(0));
  }

  /** Every listed draw is read from a row that matches the search. */
  lemma ListDrawsMatch(db: Db, limit: Option<int>, offset: Option<int>, searchText: Option<string>)
    ensures var r := ListDraws(db, limit, offset, searchText);
      forall i | 0 <= i < |r| :: exists row | row in db.draws ::
        Keep(row, SearchTerm(searchText)) && r[i] == MapRowToDraw(row)
  {
    var r := ListDraws(db, limit, offset, searchText);
    PageFromListed(db, SearchTerm(searchText), r, limit.GetOr(DefaultLimit), offset.GetOr(0));
  }

  /** One page of rows, as draws. */
  function Page(rows: seq<DrawRow>, limit: int, offset: int): (r: seq<Draw>)
    ensures |r| == |Rows.Window(rows, limit, offset)|
  {
    MapRows(Rows.Window(rows, limit, offset))
  }

  /** A page of rows in newest-first order is in newest-first order. */
  lemma PageSorted(rows: seq<DrawRow>, limit: int, offset: int)
    requires Rows.SortedDesc(rows, RowCreatedAt)
    ensures Rows.SortedDesc(Page(rows, limit, offset), DrawCreatedAt)
  {
    var w := Rows.Window(rows, limit, offset);
    Rows.WindowSorted(rows, limit, offset, RowCreatedAt);
    MapRowsSorted(w);
  }

  lemma MapRowsSorted(rows: seq<DrawRow>)
    requires Rows.SortedDesc(rows, RowCreatedAt)
    ensures Rows.SortedDesc(MapRows(rows), DrawCreatedAt)
  {
    var r := MapRows(rows);
    forall i, j | 0 <= i < j < |r| ensures DrawCreatedAt(r[i]) >= DrawCreatedAt(r[j]) {
      assert RowCreatedAt(rows[i]) >= RowCreatedAt(rows[j]);
    }
  }

  /** The `i`-th draw of a page is read from the `i`-th row after the
      offset. */
  lemma PageAt(rows: seq<DrawRow>, limit: int, offset: int)
    ensures var r := Page(rows, limit, offset);
      var o := Rows.Start(|rows|, offset);
      forall i | 0 <= i < |r| :: o + i < |rows| && r[i] == MapRowToDraw(rows[o + i])
  {
    Rows.WindowAt(rows, limit, offset);
  }

  /** Every draw on a page of the listing comes from a matching row. */
  lemma PageFromListed(db: Db, term: Option<string>, r: seq<Draw>, limit: int, offset: int)
    requires r == Page(Listed(db, term), limit, offset)
    ensures forall i | 0 <= i < |r| :: exists row | row in db.draws :: Keep(row, term) && r[i] == MapRowToDraw(row)
  {
    var rows := Listed(db, term);
    ListedMembers(db, term);
    PageAt(rows, limit, offset);
    var o := Rows.Start(|rows|, offset);
    forall i | 0 <= i < |r| ensures exists row | row in db.draws :: Keep(row, term) && r[i] == MapRowToDraw(row) {
      var row := rows[o + i];
      assert row in rows;
      assert row in db.draws && Keep(row, term) && r[i] == MapRowToDraw(row);
    }
  }

  /** Blank search text is no search at all. */
  lemma BlankSearch(db: Db, limit: Option<int>, offset: Option<int>, text: string)
    requires |Trim(text)| == 0
    ensures ListDraws(db, limit, offset, Some(text)) == ListDraws(db, limit, offset, None)
  {
  }

  /** Without a search term every row is listed. */
  lemma NoSearchListsAll(db: Db)
    ensures multiset(Listed(db, None)) == multiset(db.draws)
  {
    Rows.FilterAll(db.draws, row => Keep(row, None));
    Rows.SortDescSorted(db.draws, RowCreatedAt);
  }

  /** `listDraws` with an explicit limit and offset is that page of the
      listed rows. */
  lemma ListDrawsPage(db: Db, limit: nat, offset: nat, searchText: Option<string>)
    ensures ListDraws(db, Some(limit), Some(offset), searchText)
         == Page(Listed(db, SearchTerm(searchText)), limit, offset)
  {
  }

  /** Paging through a listing: the page of `a` draws at offset `o` followed
      by the page of `b` draws at offset `o + a` is the page of `a + b`
      draws at `o`. */
  lemma PagesConcatenate(rows: seq<DrawRow>, a: nat, b: nat, o: nat)
    ensures Page(rows, a, o) + Page(rows, b, o + a) == Page(rows, a + b, o)
  {
    Rows.Pages(rows, a, b, o);
    MapRowsAppend(Rows.Window(rows, a, o), Rows.Window(rows, b, o + a));
  }

  /** Paging through `listDraws`: asking for `a` draws at offset `o` and
      then `b` draws at offset `o + a` gives exactly the `a + b` draws at
      offset `o`, so consecutive pages neither skip nor repeat a draw. */
  lemma ListDrawsTiling(db: Db, a: nat, b: nat, o: nat, searchText: Option<string>)
    ensures ListDraws(db, Some(a), Some(o), searchText) + ListDraws(db, Some(b), Some(o + a), searchText)
         == ListDraws(db, Some(a + b), Some(o), searchText)
  {
    var rows := Listed(db, SearchTerm(searchText));
    forall l: nat, off: nat ensures ListDraws(db, Some(l), Some(off), searchText) == Page(rows, l, off) {
      ListDrawsPage(db, l, off, searchText);
    }
    PagesConcatenate(rows, a, b, o);
  }

  /** A `listDraws` call from offset 0 whose limit covers every matching row
      returns all of them, newest first, each once. */
  lemma ListDrawsComplete(db: Db, searchText: Option<string>)
    ensures var rows := Listed(db, SearchTerm(searchText));
      ListDraws(db, Some(|rows|), Some(0), searchText) == MapRows(rows)
  {
    var rows := Listed(db, SearchTerm(searchText));
    ListDrawsPage(db, |rows|, 0, searchText);
    Rows.WindowAt(rows, |rows|, 0);
    assert Rows.Window(rows, |rows|, 0) == rows;
  }

  lemma MapRowsAppend(p: seq<DrawRow>, q: seq<DrawRow>)
    ensures MapRows(p) + MapRows(q) == MapRows(p + q)
  {
  }

  // ---------------------------------------------------------------------
  // Notes.

  /** `updateDrawNote(id, note)`: the note of the row with that id becomes
      `note`; nothing else changes. */
  function UpdateDrawNote(db: Db, id: string, note: Option<string>): (r: Db)
    ensures r.favorites == db.favorites && |r.draws| == |db.draws|
    ensures forall i | 0 <= i < |db.draws| :: r.draws[i] == db.draws[i].(note := r.draws[i].note)
    ensures forall i | 0 <= i < |db.draws| :: r.draws[i].note == if db.draws[i].id == id then note else db.draws[i].note
  {
    db.(draws := seq(|db.draws|, i requires 0 <= i < |db.draws| =>
      if db.draws[i].id == id then db.draws[i].(note := note) else db.draws[i]))
  }

  /** Reading after a note update: the updated draw has the new note and
      every other field as before; other draws are untouched; an unknown id
      changes nothing. */
  lemma UpdateThenGet(db: Db, id: string, note: Option<string>, other: string)
    ensures GetDraw(UpdateDrawNote(db, id, note), id)
         == if GetDraw(db, id).Some? then Some(GetDraw(db, id).value.(note := note)) else None
    ensures other != id ==> GetDraw(UpdateDrawNote(db, id, note), other) == GetDraw(db, other)
    ensures !HasDraw(db, id) ==> UpdateDrawNote(db, id, note) == db
  {
    var r := UpdateDrawNote(db, id, note);
    FindRowUpdated(db.draws, r.draws, id, note, id);
    FindRowUpdated(db.draws, r.draws, id, note, other);
    if !HasDraw(db, id) {
      assert r.draws == db.draws;
    }
  }

  lemma {:induction false} FindRowUpdated(rows: seq<DrawRow>, updated: seq<DrawRow>, id: string,
                                          note: Option<string>, key: string)
    requires |updated| == |rows|
    requires forall i | 0 <= i < |rows| ::
      updated[i] == if rows[i].id == id then rows[i].(note := note) else rows[i]
    ensures key == id ==>
      (FindRow(updated, key)
       == if FindRow(rows, key).Some? then Some(FindRow(rows, key).value.(note := note)) else None)
    ensures key != id ==> FindRow(updated, key) == FindRow(rows, key)
    decreases |rows|
  {
    if |rows| > 0 {
      FindRowUpdated(rows[1..], updated[1..], id, note, key);
    }
  }

  // ---------------------------------------------------------------------
  // Favourites.

  function FavDrawId(f: FavoriteRow): string {
    f.drawId
  }

  /** The first favourite row of a draw (`SELECT id FROM favorites WHERE
      drawId = ?`, first row). */
  function FirstFavorite(favs: seq<FavoriteRow>, drawId: string): Option<FavoriteRow> {
    Rows.FirstWith(favs, FavDrawId, drawId)
  }

  predicate IsFavorite(db: Db, drawId: string) {
    exists i | 0 <= i < |db.favorites| :: db.favorites[i].drawId == drawId
  }

  predicate FavoriteIdTaken(db: Db, id: string) {
    exists i | 0 <= i < |db.favorites| :: db.favorites[i].id == id
  }

  /** `toggleFavorite(drawId)` with `newId` and `now` standing for the
      generated id and `Date.now()`. When the first favourite row of the
      draw has a non-empty id, every favourite row of the draw is deleted
      and the answer is `false`; otherwise one row is inserted and the
      answer is `true`. */
  function ToggleFavorite(db: Db, drawId: string, newId: string, now: int)
    : (r: Result<(bool, Db), DbError>)
    ensures r.Err? <==>
      (FirstFavorite(db.favorites, drawId).None? || FirstFavorite(db.favorites, drawId).value.id == "")
      && FavoriteIdTaken(db, newId)
    ensures r.Ok? ==> r.value.1.draws == db.draws
    ensures r.Ok? && r.value.0 ==> IsFavorite(r.value.1, drawId)
    ensures r.Ok? && !r.value.0 ==> IsFavorite(db, drawId) && !IsFavorite(r.value.1, drawId)
    ensures r.Ok? ==> forall f: FavoriteRow | f.drawId != drawId :: f in r.value.1.favorites <==> f in db.favorites
    ensures r.Ok? ==>
      (r.value.0 <==> !(FirstFavorite(db.favorites, drawId).Some? && FirstFavorite(db.favorites, drawId).value.id != ""))
    ensures r.Ok? && !r.value.0 ==>
      r.value.1.favorites == Rows.Filter(db.favorites, (f: FavoriteRow) => f.drawId != drawId)
    ensures r.Ok? && r.value.0 ==> r.value.1.favorites == db.favorites + [FavoriteRow(newId, drawId, now)]
  {
    var existing := FirstFavorite(db.favorites, drawId);
    if existing.Some? && existing.value.id != "" then
      var kept := Rows.Filter(db.favorites, (f: FavoriteRow) => f.drawId != drawId);
      Rows.FilterMembers(db.favorites, (f: FavoriteRow) => f.drawId != drawId);
      assert forall i | 0 <= i < |kept| :: kept[i] in kept;
      assert existing.value in db.favorites;
      Ok((false, db.(favorites := kept)))
    else if FavoriteIdTaken(db, newId) then Err(PrimaryKeyConflict(newId))
    else
      var favs := db.favorites + [FavoriteRow(newId, drawId, now)];
      assert favs[|favs| - 1].drawId == drawId;
      Ok((true, db.(favorites := favs)))
  }

  /** Toggling a draw that is not a favourite on and then off again answers
      `true`, then `false`, and leaves the tables as they were. */
  lemma ToggleTwice(db: Db, drawId: string, id1: string, now1: int, id2: string, now2: int)
    requires !IsFavorite(db, drawId) && !FavoriteIdTaken(db, id1) && id1 != ""
    ensures ToggleFavorite(db, drawId, id1, now1).Ok?
    ensures var first := ToggleFavorite(db, drawId, id1, now1).value;
      && first.0
      && ToggleFavorite(first.1, drawId, id2, now2) == Ok((false, db))
  {
    var row := FavoriteRow(id1, drawId, now1);
    var favs := db.favorites + [row];
    assert FirstFavorite(db.favorites, drawId).None?;
    FirstFavoriteAppend(db.favorites, row);
    Rows.FilterAppend(db.favorites, [row], (f: FavoriteRow) => f.drawId != drawId);
    Rows.FilterAll(db.favorites, (f: FavoriteRow) => f.drawId != drawId);
    assert Rows.Filter([row], (f: FavoriteRow) => f.drawId != drawId) == [];
    var db1 := db.(favorites := favs);
    assert ToggleFavorite(db, drawId, id1, now1) == Ok((true, db1));
    assert FirstFavorite(db1.favorites, drawId) == Some(row);
    assert Rows.Filter(favs, (f: FavoriteRow) => f.drawId != drawId) == db.favorites;
    assert ToggleFavorite(db1, drawId, id2, now2) == Ok((false, db1.(favorites := db.favorites)));
  }

  lemma FirstFavoriteAppend(favs: seq<FavoriteRow>, row: FavoriteRow)
    requires forall i | 0 <= i < |favs| :: favs[i].drawId != row.drawId
    ensures FirstFavorite(favs + [row], row.drawId) == Some(row)
  {
    Rows.FirstWithAppend(favs, row, FavDrawId, row.drawId);
  }

  function FavCreatedAt(f: FavoriteRow): int {
    f.createdAt
  }

  function PairFavCreatedAt(p: (FavoriteRow, DrawRow)): int {
    p.0.createdAt
  }

  /** The draw rows a favourite row joins with (`favorites.drawId = draws.id`). */
  function JoinOne(f: FavoriteRow, draws: seq<DrawRow>): (r: seq<(FavoriteRow, DrawRow)>)
    ensures forall p :: p in r <==> p.0 == f && p.1 in draws && p.1.id == f.drawId
  {
    var hits := Rows.Filter(draws, (row: DrawRow) => row.id == f.drawId);
    Rows.FilterMembers(draws, (row: DrawRow) => row.id == f.drawId);
    PairsMembers(f, hits);
    Pairs(f, hits)
  }

  /** Each row paired with the favourite row. */
  function Pairs(f: FavoriteRow, rows: seq<DrawRow>): (r: seq<(FavoriteRow, DrawRow)>)
    ensures |r| == |rows|
  {
    if |rows| == 0 then [] else [(f, rows[0])] + Pairs(f, rows[1..])
  }

  lemma {:induction false} PairsMembers(f: FavoriteRow, rows: seq<DrawRow>)
    ensures forall p :: p in Pairs(f, rows) <==> p.0 == f && p.1 in rows
  {
    if |rows| > 0 {
      PairsMembers(f, rows[1..]);
      assert forall d :: d in rows <==> d == rows[0] || d in rows[1..];
    }
  }

  /** The inner join, favourite row by favourite row in the given order. */
  function JoinRows(favs: seq<FavoriteRow>, draws: seq<DrawRow>): (r: seq<(FavoriteRow, DrawRow)>)
    ensures forall p :: p in r <==> p.0 in favs && p.1 in draws && p.1.id == p.0.drawId
    ensures Rows.SortedDesc(favs, FavCreatedAt) ==> Rows.SortedDesc(r, PairFavCreatedAt)
  {
    if |favs| == 0 then []
    else
      var head := JoinOne(favs[0], draws);
      var rest := JoinRows(favs[1..], draws);
      assert forall f :: f in favs <==> f == favs[0] || f in favs[1..];
      JoinOrder(favs, head, rest);
      head + rest
  }

  /** Joined blocks of favourite rows taken in order newest first stay
      newest first. */
  lemma JoinOrder(favs: seq<FavoriteRow>, head: seq<(FavoriteRow, DrawRow)>,
                  rest: seq<(FavoriteRow, DrawRow)>)
    requires |favs| > 0
    requires forall p | p in head :: p.0 == favs[0]
    requires forall p | p in rest :: p.0 in favs[1..]
    requires Rows.SortedDesc(favs[1..], FavCreatedAt) ==> Rows.SortedDesc(rest, PairFavCreatedAt)
    ensures Rows.SortedDesc(favs, FavCreatedAt) ==> Rows.SortedDesc(head + rest, PairFavCreatedAt)
  {
    if Rows.SortedDesc(favs, FavCreatedAt) {
      var r := head + rest;
      assert Rows.SortedDesc(favs[1..], FavCreatedAt);
      forall p | p in rest ensures p.0.createdAt <= favs[0].createdAt {
        var k :| 0 <= k < |favs[1..]| && favs[1..][k] == p.0;
        assert favs[k + 1] == p.0;
      }
      forall i, j | 0 <= i < j < |r| ensures PairFavCreatedAt(r[i]) >= PairFavCreatedAt(r[j]) {
        if i < |head| {
          assert r[i] in head;
          if j >= |head| {
            assert r[j] == rest[j - |head|];
            assert r[j] in rest;
          } else {
            assert r[j] in head;
          }
        } else {
          assert r[i] == rest[i - |head|] && r[j] == rest[j - |head|];
        }
      }
    }
  }

  /** The joined rows of `listFavorites`, ordered by the favourite's
      `createdAt`, newest first. */
  function FavoritePairs(db: Db): (r: seq<(FavoriteRow, DrawRow)>)
    ensures Rows.SortedDesc(r, PairFavCreatedAt)
    ensures forall p :: p in r <==> p.0 in db.favorites && p.1 in db.draws && p.1.id == p.0.drawId
  {
    var favs := Rows.SortDesc(db.favorites, FavCreatedAt);
    Rows.SortDescSorted(db.favorites, FavCreatedAt);
    assert forall f :: f in favs <==> f in multiset(favs);
    JoinRows(favs, db.draws)
  }

  /** `listFavorites()`: exactly the draws that have a favourite row, one
      per joined row, in the newest-first order of the favourite rows. */
  function ListFavorites(db: Db): (r: seq<Draw>)
    ensures forall d :: d in r <==> exists row, f | row in db.draws && f in db.favorites ::
      f.drawId == row.id && d == MapRowToDraw(row)
    ensures |r| == |FavoritePairs(db)|
    ensures forall i | 0 <= i < |r| :: r[i] == MapRowToDraw(FavoritePairs(db)[i].1)
    ensures forall i, j | 0 <= i < j < |r| ::
      FavoritePairs(db)[i].0.createdAt >= FavoritePairs(db)[j].0.createdAt
  {
    var pairs := FavoritePairs(db);
    var r := seq(|pairs|, i requires 0 <= i < |pairs| => MapRowToDraw(pairs[i].1));
    PairedDraws(db, pairs, r);
    assert Rows.SortedDesc(pairs, PairFavCreatedAt);
    r
  }

  /** Draws read from the joined pairs are exactly the draws of stored rows
      some favourite names. */
  lemma PairedDraws(db: Db, pairs: seq<(FavoriteRow, DrawRow)>, r: seq<Draw>)
    requires forall p :: p in pairs <==> p.0 in db.favorites && p.1 in db.draws && p.1.id == p.0.drawId
    requires |r| == |pairs| && forall i | 0 <= i < |r| :: r[i] == MapRowToDraw(pairs[i].1)
    ensures forall d :: d in r <==> exists row, f | row in db.draws && f in db.favorites ::
      f.drawId == row.id && d == MapRowToDraw(row)
  {
    forall d | d in r ensures exists row, f | row in db.draws && f in db.favorites ::
      f.drawId == row.id && d == MapRowToDraw(row)
    {
      var i :| 0 <= i < |r| && r[i] == d;
      assert pairs[i] in pairs;
    }
    forall row, f | row in db.draws && f in db.favorites && f.drawId == row.id
      ensures MapRowToDraw(row) in r
    {
      var i :| 0 <= i < |pairs| && pairs[i] == (f, row);
      assert r[i] == MapRowToDraw(row);
    }
  }
}
