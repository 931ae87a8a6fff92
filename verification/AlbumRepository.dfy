/** The repository object: its methods read and change the table, send cache commands, and
    leave the rest to background goroutines, whose commands wait in `pending`. Each method
    is one step of the state machine. */
module AlbumRepository {
  import opened Wrappers
  import opened Uuids
  import opened AlbumTable
  import opened AlbumCache
  import opened Pagination
  import Runs = AlbumRuns
  import Access = AlbumAccess

  /** The album a list shows for one id: a cached one that parsed, or else the row. */
  function Hydrated(c: Cache, db: Db, id: Uuid): Option<Album> {
    var cached := Runs.CachedByID(c, id);
    if cached.Some? && cached.value.id != NIL then cached
    else if id in db.albums then Some(db.albums[id])
    else cached
  }

  /** The albums found for a sequence of ids, in the order of the ids, skipping the ids
      for which there is none. */
  function InOrder(rows: seq<PageKey>, find: Uuid -> Option<Album>): seq<Album> {
    if rows == [] then [] else
      var last := find(rows[|rows| - 1].id);
      InOrder(rows[..|rows| - 1], find) + if last.Some? then [last.value] else []
  }

  function FromTable(db: Db): Uuid -> Option<Album> {
    (id: Uuid) => if id in db.albums then Some(db.albums[id]) else None
  }

  function FromCache(c: Cache, db: Db): Uuid -> Option<Album> {
    (id: Uuid) => Hydrated(c, db, id)
  }

  function FromMap(found: map<Uuid, Album>): Uuid -> Option<Album> {
    (id: Uuid) => if id in found then Some(found[id]) else None
  }

  lemma {:induction false} InOrderSame(rows: seq<PageKey>, f: Uuid -> Option<Album>, g: Uuid -> Option<Album>)
    requires forall i :: 0 <= i < |rows| ==> f(rows[i].id) == g(rows[i].id)
    ensures InOrder(rows, f) == InOrder(rows, g)
  {
    if rows != [] {
      InOrderSame(rows[..|rows| - 1], f, g);
    }
  }

  /** `at` are the places of the ids that have an album, in order, and `albums` are those
      albums, in the same order. */
  predicate Places(at: seq<nat>, rows: seq<PageKey>, find: Uuid -> Option<Album>, albums: seq<Album>) {
    && |at| == |albums|
    && (forall j :: 0 <= j < |at| ==> at[j] < |rows| && find(rows[at[j]].id) == Some(albums[j]))
    && (forall i, j :: 0 <= i < j < |at| ==> at[i] < at[j])
    && (forall i :: 0 <= i < |rows| && find(rows[i].id).Some? ==> i in at)
  }

  lemma PlacesSkip(at: seq<nat>, rows: seq<PageKey>, row: PageKey, find: Uuid -> Option<Album>, albums: seq<Album>)
    requires Places(at, rows, find, albums) && find(row.id).None?
    ensures Places(at, rows + [row], find, albums)
  {
  }

  lemma PlacesSnoc(at: seq<nat>, rows: seq<PageKey>, row: PageKey, find: Uuid -> Option<Album>, albums: seq<Album>)
    requires Places(at, rows, find, albums) && find(row.id).Some?
    ensures Places(at + [|rows|], rows + [row], find, albums + [find(row.id).value])
  {
    var at', rows' := at + [|rows|], rows + [row];
    forall i | 0 <= i < |rows'| && find(rows'[i].id).Some?
      ensures i in at'
    {
      assert i < |rows| ==> rows'[i] == rows[i] && i in at;
      assert at'[|at|] == |rows|;
    }
  }

  /** The albums come in the order of the ids: the j-th album is the one found for the j-th
      of the ids that have one. */
  lemma {:induction false} InOrderIndexed(rows: seq<PageKey>, find: Uuid -> Option<Album>) returns (at: seq<nat>)
    ensures Places(at, rows, find, InOrder(rows, find))
  {
    hide Places;
    if rows == [] {
      at := [];
      NoPlaces(find);
    } else {
      var init, last := rows[..|rows| - 1], rows[|rows| - 1];
      assert rows == init + [last];
      at := InOrderIndexed(init, find);
      if find(last.id).Some? {
        PlacesSnoc(at, init, last, find, InOrder(init, find));
        at := at + [|init|];
      } else {
        PlacesSkip(at, init, last, find, InOrder(init, find));
        assert InOrder(init, find) + [] == InOrder(init, find);
      }
    }
  }

  lemma NoPlaces(find: Uuid -> Option<Album>)
    ensures Places([], [], find, [])
  {
  }

  /** With every id stored the table gives one album for each id. */
  lemma {:induction false} InOrderAll(rows: seq<PageKey>, db: Db)
    requires forall i :: 0 <= i < |rows| ==> rows[i].id in db.albums
    ensures var albums := InOrder(rows, FromTable(db));
            |albums| == |rows| && forall i :: 0 <= i < |rows| ==> albums[i] == db.albums[rows[i].id]
  {
    if rows != [] {
      InOrderAll(rows[..|rows| - 1], db);
    }
  }

  /** Strictly descending by a date column and, for equal dates, by id. */
  predicate SortedBy(albums: seq<Album>, date: Album -> int) {
    forall i, j :: 0 <= i < j < |albums| ==>
      date(albums[i]) > date(albums[j]) || (date(albums[i]) == date(albums[j]) && albums[i].id > albums[j].id)
  }

  /** The album comes after a cursor. */
  predicate After(a: Album, cursor: Option<PageKey>, date: Album -> int) {
    cursor == None || date(a) < cursor.value.date || (date(a) == cursor.value.date && a.id < cursor.value.id)
  }

  function KeyBy(a: Album, date: Album -> int): PageKey {
    PageKey(date(a), a.id)
  }

  predicate StoredIn(db: Db, a: Album) {
    a.id in db.albums && db.albums[a.id] == a
  }

  /** What a page has to be, on the columns: the stored albums that belong on the list, come
      after the cursor and do not come after the next cursor, in order; with a next cursor
      a full page of them, whose last album the cursor is, and else no more than fit. */
  ghost predicate PageExact(
    db: Db, albums: seq<Album>, next: Option<PageKey>, cursor: Option<PageKey>, limit: nat,
    date: Album -> int, on: Album -> bool)
  {
    && SortedBy(albums, date)
    && (forall a :: a in albums <==>
         StoredIn(db, a) && on(a) && After(a, cursor, date) && (next == None || !After(a, next, date)))
    && (if next == None then |albums| <= limit
        else |albums| == limit > 0 && next.value == KeyBy(albums[limit - 1], date))
  }

  function DateAt(a: Album): int {
    a.dateAt
  }

  function DeletionDate(a: Album): int {
    if a.deletedAt.Some? then a.deletedAt.value else 0
  }

  /** Which albums of a user a viewer's list is made of: all that are not deleted for their
      owner, and for everyone else those of them that are active and either public or
      shared with the viewer. */
  predicate OnList(a: Album, userID: Uuid, viewerID: Uuid, viewerEmail: string) {
    && a.userID == userID && a.deletedAt == None
    && ((viewerID != 0 && viewerID == userID)
        || (a.isActive && (a.access == "public" || (a.access == "shared" && viewerEmail in a.sharedEmails))))
  }

  predicate OnTrash(a: Album, userID: Uuid) {
    a.userID == userID && a.deletedAt != None
  }

  /** The keys of a query are those of the stored albums that belong on the list. */
  ghost predicate KeysOf(keys: set<PageKey>, db: Db, date: Album -> int, on: Album -> bool) {
    forall k :: k in keys <==> k.id in db.albums && k.date == date(db.albums[k.id]) && on(db.albums[k.id])
  }

  lemma ListKeysExact(db: Db, userID: Uuid, viewerID: Uuid, viewerEmail: string)
    requires Valid(db)
    ensures KeysOf(Access.ListedKeys(db, userID, viewerID, viewerEmail), db, DateAt,
                   a => OnList(a, userID, viewerID, viewerEmail))
  {
    forall k
      ensures k in Access.ListedKeys(db, userID, viewerID, viewerEmail)
         <==> k.id in db.albums && k.date == db.albums[k.id].dateAt
              && OnList(db.albums[k.id], userID, viewerID, viewerEmail)
    {
      Access.ListedMembers(db, userID, viewerID, viewerEmail, k);
    }
  }

  lemma TrashKeysExact(db: Db, userID: Uuid)
    requires Valid(db)
    ensures KeysOf(Access.TrashedKeys(db, userID), db, DeletionDate, a => OnTrash(a, userID))
  {
  }

  lemma RowsSorted(rows: seq<PageKey>, keys: set<PageKey>, db: Db, date: Album -> int, on: Album -> bool)
    requires Valid(db) && KeysOf(keys, db, date, on) && Descending(rows) && forall k :: k in rows ==> k in keys
    ensures var albums := InOrder(rows, FromTable(db));
            && |albums| == |rows| && SortedBy(albums, date)
            && (forall i :: 0 <= i < |rows| ==> StoredIn(db, albums[i]) && rows[i] == KeyBy(albums[i], date))
  {
    forall i | 0 <= i < |rows|
      ensures rows[i].id in db.albums && rows[i] == KeyBy(db.albums[rows[i].id], date)
    {
      assert rows[i] in rows && rows[i] in keys;
    }
    InOrderAll(rows, db);
    hide InOrder, KeysOf;
    var albums := InOrder(rows, FromTable(db));
    forall i, j | 0 <= i < j < |albums|
      ensures date(albums[i]) > date(albums[j]) || (date(albums[i]) == date(albums[j]) && albums[i].id > albums[j].id)
    {
      assert Before(rows[i], rows[j]);
    }
  }

  lemma RowsMembers(rows: seq<PageKey>, keys: set<PageKey>, db: Db, date: Album -> int, on: Album -> bool, a: Album)
    requires Valid(db) && KeysOf(keys, db, date, on) && Descending(rows) && forall k :: k in rows ==> k in keys
    ensures a in InOrder(rows, FromTable(db)) <==> StoredIn(db, a) && KeyBy(a, date) in rows
  {
    RowsSorted(rows, keys, db, date, on);
    var albums := InOrder(rows, FromTable(db));
    hide InOrder, SortedBy, Descending;
    if a in albums {
      var i :| 0 <= i < |albums| && albums[i] == a;
      assert rows[i] == KeyBy(a, date);
    }
    if StoredIn(db, a) && KeyBy(a, date) in rows {
      var i :| 0 <= i < |rows| && rows[i] == KeyBy(a, date);
      assert albums[i].id == a.id && albums[i] in albums;
    }
  }

  lemma PageMembers(
    keys: set<PageKey>, cursor: Option<PageKey>, limit: nat, db: Db, date: Album -> int, on: Album -> bool, a: Album)
    requires Valid(db) && KeysOf(keys, db, date, on) && 1 <= limit
    ensures var p := PageOf(keys, cursor, limit);
            a in InOrder(p.items, FromTable(db)) <==>
              StoredIn(db, a) && on(a) && After(a, cursor, date) && (p.next == None || !After(a, p.next, date))
  {
    var p := PageOf(keys, cursor, limit);
    var k := KeyBy(a, date);
    PageSplits(keys, cursor, limit);
    RowsMembers(p.items, keys, db, date, on, a);
    KeyOnPage(keys, cursor, limit, k);
    assert StoredIn(db, a) ==> (k in keys <==> on(a));
    assert Past(k, cursor) == After(a, cursor, date) && Past(k, p.next) == After(a, p.next, date);
    hide PageOf, InOrder, KeysOf, Valid, StoredIn, Past, After;
  }

  lemma PageShape(
    keys: set<PageKey>, cursor: Option<PageKey>, limit: nat, db: Db, date: Album -> int, on: Album -> bool)
    requires Valid(db) && KeysOf(keys, db, date, on) && 1 <= limit
    ensures var p := PageOf(keys, cursor, limit);
            var albums := InOrder(p.items, FromTable(db));
            && SortedBy(albums, date)
            && (if p.next == None then |albums| <= limit
                else |albums| == limit > 0 && p.next.value == KeyBy(albums[limit - 1], date))
  {
    var p := PageOf(keys, cursor, limit);
    PageSplits(keys, cursor, limit);
    PageSizes(keys, cursor, limit);
    hide PageOf, InOrder, KeysOf, Valid, SortedBy, Descending, Past, Rest;
    RowsSorted(p.items, keys, db, date, on);
  }

  /** A page of keys, read from the table, is the page it has to be. */
  lemma PageIsExact(
    keys: set<PageKey>, cursor: Option<PageKey>, limit: nat, db: Db, date: Album -> int, on: Album -> bool)
    requires Valid(db) && KeysOf(keys, db, date, on) && 1 <= limit
    ensures var p := PageOf(keys, cursor, limit);
            PageExact(db, InOrder(p.items, FromTable(db)), p.next, cursor, limit, date, on)
  {
    var p := PageOf(keys, cursor, limit);
    var albums := InOrder(p.items, FromTable(db));
    PageShape(keys, cursor, limit, db, date, on);
    hide PageOf, InOrder, KeysOf, Valid, StoredIn, After, SortedBy;
    forall a
      ensures a in albums <==>
                StoredIn(db, a) && on(a) && After(a, cursor, date) && (p.next == None || !After(a, p.next, date))
    {
      PageMembers(keys, cursor, limit, db, date, on, a);
    }
  }

  lemma KeyOnPage(keys: set<PageKey>, cursor: Option<PageKey>, limit: nat, k: PageKey)
    requires 1 <= limit
    ensures var p := PageOf(keys, cursor, limit);
            k in p.items <==> k in keys && Past(k, cursor) && (p.next == None || !Past(k, p.next))
  {
    var p := PageOf(keys, cursor, limit);
    PageSplits(keys, cursor, limit);
    assert k in p.items <==> k in Elements(p.items);
    assert k in Rest(keys, cursor) <==> k in keys && Past(k, cursor);
    if p.next.Some? {
      assert k in Rest(keys, p.next) <==> k in keys && Past(k, p.next);
    }
  }

  /** Hydration refines the plain query: with coherent entities, however many of them are
      cached, the list is what reading every id from the table would give. */
  lemma {:induction false} HydrationRefinesQuery(rows: seq<PageKey>, c: Cache, db: Db)
    requires Runs.EntitiesCoherent(c, db)
    ensures InOrder(rows, FromCache(c, db)) == InOrder(rows, FromTable(db))
  {
    forall id: Uuid
      ensures Hydrated(c, db, id) == FromTable(db)(id)
    {
      if EntityKey(id) in c {
        assert Runs.Agrees(EntityKey(id), c[EntityKey(id)], db);
      }
    }
    InOrderSame(rows, FromCache(c, db), FromTable(db));
  }

  /** An album still in the table when its page's rows are read appears in the list,
      whatever the cache held when it was read. */
  lemma {:induction false} PresentIsListed(rows: seq<PageKey>, c: Cache, db: Db, i: nat)
    requires i < |rows| && rows[i].id in db.albums
    ensures Hydrated(c, db, rows[i].id).Some? && Hydrated(c, db, rows[i].id).value in InOrder(rows, FromCache(c, db))
  {
    if i < |rows| - 1 {
      PresentIsListed(rows[..|rows| - 1], c, db, i);
    }
  }

  /** Whether the batch read had to go to the table for the id. */
  predicate Misses(c: Cache, id: Uuid) {
    Runs.CachedByID(c, id).None? || Runs.CachedByID(c, id).value.id == NIL
  }

  /** The rows a hydration reads from the table: those of the page that the cache lacks and
      the table still has. */
  ghost predicate FetchedFor(fetched: seq<Uuid>, rows: seq<PageKey>, c: Cache, db: Db) {
    forall id :: id in fetched <==> Misses(c, id) && ListsID(rows, id) && id in db.albums
  }

  /** With coherent entities the ids to read from the table are those not in the cache. */
  lemma MissesIffAbsent(c: Cache, db: Db, id: Uuid)
    requires Valid(db) && Runs.EntitiesCoherent(c, db) && id != 0
    ensures Misses(c, id) <==> EntityKey(id) !in c
  {
    if EntityKey(id) in c {
      assert Runs.Agrees(EntityKey(id), c[EntityKey(id)], db);
    }
  }

  class Repository {
    var db: Db
    var cache: Cache
    var pending: seq<Command>

    ghost function St(): Runs.State
      reads this
    {
      Runs.State(db, cache, pending)
    }

    constructor (db: Db)
      requires Valid(db)
      ensures St() == Runs.State(db, map[], [])
      ensures Valid(this.db) && Runs.Coherent(Runs.Settled(St()), this.db)
    {
      this.db, cache, pending := db, map[], [];
    }

    /* ---------- statements ---------- */

    method SelectBySlug(userID: Uuid, slug: string) returns (r: Result<Album, SqlError>)
      requires Valid(db)
      ensures r == GetAlbumBySlug(db, userID, slug)
    {
      if id: Uuid :| id in db.albums && HasSlug(db.albums[id], userID, slug) {
        SlugLookupUnique(db, id, userID, slug);
        return Success(db.albums[id]);
      }
      return Failure(NoRows);
    }

    method SelectByDirectToken(token: Uuid) returns (r: Result<Album, SqlError>)
      requires Valid(db)
      ensures r == GetAlbumByDirectToken(db, token)
    {
      if id: Uuid :| id in db.albums && HasToken(db.albums[id], token) {
        TokenLookupUnique(db, id, token);
        return Success(db.albums[id]);
      }
      return Failure(NoRows);
    }

    /** Rows come back in whatever order the database likes. */
    method SelectByIDs(ids: seq<Uuid>) returns (found: seq<Uuid>)
      ensures forall id :: id in found <==> id in ids && id in db.albums
      ensures forall i, j :: 0 <= i < j < |found| ==> found[i] != found[j]
    {
      found := [];
      var left := set id | id in ids && id in db.albums;
      while left != {}
        invariant forall id :: id in found || id in left <==> id in ids && id in db.albums
        invariant forall id :: id in found ==> id !in left
        invariant forall i, j :: 0 <= i < j < |found| ==> found[i] != found[j]
        decreases left
      {
        var id :| id in left;
        found, left := found + [id], left - {id};
      }
    }

    /** ORDER BY ... LIMIT over the keys past the cursor. */
    method SelectKeys(visible: set<PageKey>, cursor: Option<PageKey>, limit: nat) returns (rows: seq<PageKey>)
      ensures rows == Take(Sorted(Rest(visible, cursor)), limit)
    {
      assert Sorted({}) == [];
      hide Sorted, Take, Rest;
      ghost var all := Sorted(Rest(visible, cursor));
      var left := Rest(visible, cursor);
      rows := [];
      while left != {} && |rows| < limit
        invariant |rows| <= limit && all == rows + Sorted(left)
        decreases left
      {
        FirstExists(left);
        var k :| k in left && IsFirst(k, left);
        SortedFirst(k, left);
        assert rows + ([k] + Sorted(left - {k})) == rows + [k] + Sorted(left - {k});
        rows, left := rows + [k], left - {k};
      }
      TakePrefix(rows, Sorted(left), limit);
    }

    /* ---------- single reads ---------- */

    method GetBySlug(userID: Uuid, slug: string) returns (r: Result<Album, SqlError>)
      requires Valid(db)
      modifies this`pending
      ensures r == old(Runs.ReadBySlug(cache, db, userID, slug)).answer
      ensures St() == Runs.Next(old(St()), Runs.GetBySlug(userID, slug))
      ensures var miss := Runs.CachedByMapper(old(cache), SlugKey(userID, slug)).None?;
              pending == old(pending) + if miss && r.Success? then SetAlbum(r.value) else []
    {
      var cached := Runs.CachedByMapper(cache, SlugKey(userID, slug));
      if cached.Some? {
        return Success(cached.value);
      }
      r := SelectBySlug(userID, slug);
      if r.Success? {
        pending := pending + SetAlbum(r.value);
      }
    }

    method GetByID(userID: Uuid, albumID: Uuid) returns (r: Result<Album, SqlError>)
      modifies this`pending
      ensures r == old(Runs.ReadByID(cache, db, userID, albumID)).answer
      ensures St() == Runs.Next(old(St()), Runs.GetByID(userID, albumID))
      ensures var cached := Runs.CachedByID(old(cache), albumID);
              var miss := cached.None? || cached.value.userID != userID;
              var kept := miss && r.Success? && r.value.deletedAt == None;
              pending == old(pending) + if kept then SetAlbum(r.value) else []
    {
      var cached := Runs.CachedByID(cache, albumID);
      if cached.Some? && cached.value.userID == userID {
        return Success(cached.value);
      }
      r := GetAlbum(db, albumID, userID);
      if r.Success? && Live(r.value) {
        pending := pending + SetAlbum(r.value);
      }
    }

    method GetByDirectToken(token: Uuid) returns (r: Result<Album, SqlError>)
      requires Valid(db)
      modifies this`pending
      ensures r == old(Runs.ReadByDirectToken(cache, db, token)).answer
      ensures St() == Runs.Next(old(St()), Runs.GetByDirectToken(token))
      ensures var cached := Runs.CachedByMapper(old(cache), TokenKey(token));
              var miss := cached.None? || !cached.value.isActive || cached.value.directToken != Some(token);
              pending == old(pending) + if miss && r.Success? then SetAlbum(r.value) else []
    {
      var cached := Runs.CachedByMapper(cache, TokenKey(token));
      if cached.Some? && cached.value.isActive && cached.value.directToken == Some(token) {
        return Success(cached.value);
      }
      r := SelectByDirectToken(token);
      if r.Success? {
        pending := pending + SetAlbum(r.value);
      }
    }

    /* ---------- writes ---------- */

    method Create(id: Uuid, userID: Uuid, fields: AlbumFields, now: int) returns (r: Result<Album, SqlError>)
      requires Valid(db)
      modifies this
      ensures St() == Runs.Next(old(St()), Runs.Create(id, userID, fields, now))
      ensures Valid(db)
      ensures var w := old(Runs.Write(db, Runs.Create(id, userID, fields, now)));
              r == match w { case Success(v) => Success(v.album) case Failure(e) => Failure(e) }
      ensures r.Success? ==> id !in old(db.albums) && id in db.albums && db.albums[id] == r.value
      ensures r.Success? ==> r.value.userID == userID
      ensures r.Success?
         <==> old(Runs.MayWrite(db, Runs.Create(id, userID, fields, now))
                  && Runs.NothingTaken(db, Runs.Create(id, userID, fields, now)))
      ensures r.Success? ==> cache == old(cache) && pending == old(pending) + SetAlbum(r.value)
      ensures r.Failure? ==> St() == old(St())
    {
      Runs.NextValid(St(), Runs.Create(id, userID, fields, now));
      Runs.WriteSucceedsIff(db, Runs.Create(id, userID, fields, now));
      var w := CreateAlbum(db, id, userID, fields, now);
      if w.Failure? {
        return Failure(w.error);
      }
      db := w.value.db;
      pending := pending + SetAlbum(w.value.album);
      return Success(w.value.album);
    }

    method Update(userID: Uuid, albumID: Uuid, fields: AlbumFields, now: int) returns (r: Result<Album, SqlError>)
      requires Valid(db)
      modifies this
      ensures St() == Runs.Next(old(St()), Runs.Update(userID, albumID, fields, now))
      ensures Valid(db)
      ensures var w := old(Runs.Write(db, Runs.Update(userID, albumID, fields, now)));
              r == match w { case Success(v) => Success(v.album) case Failure(e) => Failure(e) }
      ensures r.Success? ==> r.value.id == albumID && albumID in db.albums && db.albums[albumID] == r.value
      ensures r.Success?
         <==> old(Runs.MayWrite(db, Runs.Update(userID, albumID, fields, now))
                  && Runs.NothingTaken(db, Runs.Update(userID, albumID, fields, now)))
      ensures r.Success? ==>
                var was := old(db.albums)[albumID].slug;
                var unlink := if was != fields.slug then [Unlink({SlugKey(userID, was)})] else [];
                cache == old(cache) && pending == old(pending) + (unlink + SetAlbum(r.value))
      ensures r.Failure? ==> St() == old(St())
    {
      Runs.NextValid(St(), Runs.Update(userID, albumID, fields, now));
      Runs.WriteSucceedsIff(db, Runs.Update(userID, albumID, fields, now));
      Runs.OwnRow(db, Runs.Update(userID, albumID, fields, now));
      var w := UpdateAlbum(db, userID, albumID, fields, now);
      if w.Failure? {
        return Failure(w.error);
      }
      var a, oldSlug := w.value.album, w.value.was.slug;
      db := w.value.db;
      var task := [];
      if oldSlug != a.slug {
        task := task + [Unlink({SlugKey(a.userID, oldSlug)})];
      }
      task := task + SetAlbum(a);
      pending := pending + task;
      return Success(a);
    }

    method UpdateDirectToken(userID: Uuid, albumID: Uuid, token: Option<Uuid>, now: int)
      returns (r: Result<Option<Uuid>, SqlError>)
      requires Valid(db)
      modifies this
      ensures St() == Runs.Next(old(St()), Runs.UpdateDirectToken(userID, albumID, token, now))
      ensures Valid(db)
      ensures var w := old(Runs.Write(db, Runs.UpdateDirectToken(userID, albumID, token, now)));
              r == match w { case Success(v) => Success(v.album.directToken) case Failure(e) => Failure(e) }
      ensures r.Success? ==> r.value == token && albumID in db.albums && db.albums[albumID].directToken == token
      ensures r.Success?
         <==> old(Runs.MayWrite(db, Runs.UpdateDirectToken(userID, albumID, token, now))
                  && Runs.NothingTaken(db, Runs.UpdateDirectToken(userID, albumID, token, now)))
      ensures r.Success? ==>
                var was := old(db.albums)[albumID].directToken;
                && cache == (if was.Some? then old(cache) - {TokenKey(was.value)} else old(cache))
                && pending == old(pending) + SetAlbum(db.albums[albumID])
      ensures r.Failure? ==> St() == old(St())
    {
      Runs.NextValid(St(), Runs.UpdateDirectToken(userID, albumID, token, now));
      Runs.WriteSucceedsIff(db, Runs.UpdateDirectToken(userID, albumID, token, now));
      Runs.OwnRow(db, Runs.UpdateDirectToken(userID, albumID, token, now));
      var w := UpdateAlbumDirectToken(db, userID, albumID, token, now);
      if w.Failure? {
        return Failure(w.error);
      }
      db := w.value.db;
      var oldToken := w.value.was.directToken;
      if oldToken.Some? {
        cache := cache - {TokenKey(oldToken.value)};
      }
      pending := pending + SetAlbum(w.value.album);
      return Success(w.value.album.directToken);
    }

    method ToggleActive(userID: Uuid, albumID: Uuid, isActive: bool, now: int) returns (r: Result<Uuid, SqlError>)
      requires Valid(db)
      modifies this
      ensures St() == Runs.Next(old(St()), Runs.ToggleActive(userID, albumID, isActive, now))
      ensures Valid(db)
      ensures var w := old(Runs.Write(db, Runs.ToggleActive(userID, albumID, isActive, now)));
              r == match w { case Success(v) => Success(v.album.id) case Failure(e) => Failure(e) }
      ensures r.Success? ==> r.value == albumID && albumID in db.albums && db.albums[albumID].isActive == isActive
      ensures r.Success?
         <==> old(Runs.MayWrite(db, Runs.ToggleActive(userID, albumID, isActive, now))
                  && Runs.NothingTaken(db, Runs.ToggleActive(userID, albumID, isActive, now)))
      ensures r.Success? ==> cache == old(cache) && pending == old(pending) + SetAlbum(db.albums[albumID])
      ensures r.Failure? ==> St() == old(St())
    {
      Runs.NextValid(St(), Runs.ToggleActive(userID, albumID, isActive, now));
      Runs.WriteSucceedsIff(db, Runs.ToggleActive(userID, albumID, isActive, now));
      Runs.OwnRow(db, Runs.ToggleActive(userID, albumID, isActive, now));
      var w := ToggleAlbumActive(db, userID, albumID, isActive, now);
      if w.Failure? {
        return Failure(w.error);
      }
      db := w.value.db;
      pending := pending + SetAlbum(w.value.album);
      return Success(w.value.album.id);
    }

    method Delete(userID: Uuid, albumID: Uuid, now: int) returns (r: Result<Uuid, SqlError>)
      requires Valid(db)
      modifies this
      ensures St() == Runs.Next(old(St()), Runs.Delete(userID, albumID, now))
      ensures Valid(db)
      ensures var w := old(Runs.Write(db, Runs.Delete(userID, albumID, now)));
              r == match w { case Success(v) => Success(v.album.id) case Failure(e) => Failure(e) }
      ensures r.Success? ==> r.value == albumID && albumID in db.albums && !Live(db.albums[albumID])
      ensures r.Success?
         <==> old(Runs.MayWrite(db, Runs.Delete(userID, albumID, now))
                  && Runs.NothingTaken(db, Runs.Delete(userID, albumID, now)))
      ensures r.Success? ==> cache == old(cache) && pending == old(pending) + InvalidateAlbum(db.albums[albumID])
      ensures r.Failure? ==> St() == old(St())
    {
      Runs.NextValid(St(), Runs.Delete(userID, albumID, now));
      Runs.WriteSucceedsIff(db, Runs.Delete(userID, albumID, now));
      Runs.OwnRow(db, Runs.Delete(userID, albumID, now));
      var w := SoftDeleteAlbum(db, userID, albumID, now);
      if w.Failure? {
        return Failure(w.error);
      }
      db := w.value.db;
      pending := pending + InvalidateAlbum(w.value.album);
      return Success(w.value.album.id);
    }

    method Restore(userID: Uuid, albumID: Uuid, suffix: string, now: int) returns (r: Result<Uuid, SqlError>)
      requires Valid(db)
      modifies this
      ensures St() == Runs.Next(old(St()), Runs.Restore(userID, albumID, suffix, now))
      ensures Valid(db)
      ensures var w := old(Runs.Write(db, Runs.Restore(userID, albumID, suffix, now)));
              r == match w { case Success(v) => Success(v.album.id) case Failure(e) => Failure(e) }
      ensures r.Success? ==> r.value == albumID && albumID in db.albums && Live(db.albums[albumID])
      ensures r.Success?
         <==> old(Runs.MayWrite(db, Runs.Restore(userID, albumID, suffix, now))
                  && Runs.NothingTaken(db, Runs.Restore(userID, albumID, suffix, now)))
      ensures cache == old(cache) && pending == old(pending)
      ensures r.Failure? ==> St() == old(St())
    {
      Runs.NextValid(St(), Runs.Restore(userID, albumID, suffix, now));
      Runs.WriteSucceedsIff(db, Runs.Restore(userID, albumID, suffix, now));
      Runs.OwnRow(db, Runs.Restore(userID, albumID, suffix, now));
      var w := RestoreAlbum(db, userID, albumID, suffix, now);
      if w.Failure? {
        return Failure(w.error);
      }
      db := w.value.db;
      return Success(w.value.album.id);
    }

    method Purge(userID: Uuid, albumID: Uuid) returns (r: Result<Uuid, SqlError>)
      requires Valid(db)
      modifies this
      ensures St() == Runs.Next(old(St()), Runs.Purge(userID, albumID))
      ensures Valid(db)
      ensures var w := old(Runs.Write(db, Runs.Purge(userID, albumID)));
              r == match w { case Success(v) => Success(v.album.id) case Failure(e) => Failure(e) }
      ensures r.Success? ==> r.value == albumID && albumID in old(db.albums) && albumID !in db.albums
      ensures r.Success?
         <==> old(Runs.MayWrite(db, Runs.Purge(userID, albumID))
                  && Runs.NothingTaken(db, Runs.Purge(userID, albumID)))
      ensures cache == old(cache) && pending == old(pending)
      ensures r.Failure? ==> St() == old(St())
    {
      Runs.NextValid(St(), Runs.Purge(userID, albumID));
      Runs.WriteSucceedsIff(db, Runs.Purge(userID, albumID));
      Runs.OwnRow(db, Runs.Purge(userID, albumID));
      var w := HardDeleteAlbum(db, userID, albumID);
      if w.Failure? {
        return Failure(w.error);
      }
      db := w.value.db;
      return Success(w.value.album.id);
    }

    /** A background goroutine sends one of its commands. */
    method SendPending(i: nat)
      modifies this
      ensures St() == Runs.Next(old(St()), Runs.RunCommand(i))
    {
      if i < |pending| {
        match pending[i] {
          case Set(key, value) => cache := cache[key := value];
          case Unlink(keys) => cache := cache - keys;
        }
        pending := pending[..i] + pending[i + 1..];
      }
    }

    /* ---------- lists ---------- */

    /** `queried` are the ids read from the table, `fetched` the rows it returned. */
    method HydrateAlbumsList(idRows: seq<PageKey>, limit: nat)
      returns (albums: seq<Album>, next: Option<PageKey>, queried: seq<Uuid>, fetched: seq<Uuid>)
      requires Valid(db) && 1 <= limit
      modifies this`pending
      ensures next == Cut(idRows, limit).next
      ensures albums == InOrder(Cut(idRows, limit).items, FromCache(old(cache), db))
      ensures forall id :: id in queried <==> Misses(old(cache), id) && ListsID(Cut(idRows, limit).items, id)
      ensures forall id :: id in fetched <==> id in queried && id in db.albums
      ensures St() == Runs.Next(old(St()), Runs.FetchByIDs(fetched))
      ensures exists at :: Places(at, Cut(idRows, limit).items, FromCache(old(cache), db), albums)
    {
      ghost var at := InOrderIndexed(Cut(idRows, limit).items, FromCache(cache, db));
      hide Places;
      if |idRows| == 0 {
        FetchStep(St(), []);
        assert Runs.FillAll(db, []) == [] && pending + [] == pending;
        hide Runs.Next;
        return [], None, [], [];
      }
      hide InOrder, Runs.FillAll, Runs.CachedByID, Runs.Next, Valid;
      next := None;
      var rows := idRows;
      if |idRows| == limit + 1 {
        rows := idRows[..limit];
        next := Some(rows[|rows| - 1]);
      }
      albums, queried, fetched := HydrateRows(rows);
      FetchStep(old(St()), fetched);
    }

    method HydrateRows(rows: seq<PageKey>) returns (albums: seq<Album>, queried: seq<Uuid>, fetched: seq<Uuid>)
      requires Valid(db)
      modifies this`pending
      ensures albums == InOrder(rows, FromCache(old(cache), db))
      ensures forall id :: id in queried <==> Misses(old(cache), id) && ListsID(rows, id)
      ensures forall id :: id in fetched <==> id in queried && id in db.albums
      ensures pending == old(pending) + Runs.FillAll(db, fetched)
    {
      var found := CollectCached(rows);
      queried := FindMissing(rows, found);
      fetched := [];
      ghost var cached := found;
      if |queried| > 0 {
        fetched := SelectByIDs(queried);
        found := StoreFetched(found, fetched);
      }
      albums := RestoreOrder(rows, found);
      assert found == Stored(cached, db, fetched);
      forall i | 0 <= i < |rows|
        ensures FromMap(found)(rows[i].id) == FromCache(cache, db)(rows[i].id)
      {
        StoredAt(cached, db, fetched, rows[i].id);
        assert Holds(cached, rows[i].id, Runs.CachedByID(cache, rows[i].id));
      }
      InOrderSame(rows, FromMap(found), FromCache(cache, db));
    }

    method CollectCached(rows: seq<PageKey>) returns (found: map<Uuid, Album>)
      ensures forall i :: 0 <= i < |rows| ==> Holds(found, rows[i].id, Runs.CachedByID(cache, rows[i].id))
      ensures forall id :: id in found ==> ListsID(rows, id)
    {
      hide Runs.CachedByID, ListsID;
      // The batch read gives one slot for each key, empty where the key is missing or
      // its value does not parse.
      var c := cache;
      var items := seq(|rows|, i requires 0 <= i < |rows| => Runs.CachedByID(c, rows[i].id));
      found := map[];
      for i := 0 to |items|
        invariant forall j :: 0 <= j < i ==> Holds(found, rows[j].id, Runs.CachedByID(cache, rows[j].id))
        invariant forall id :: id in found ==> Runs.CachedByID(cache, id) == Some(found[id]) && ListsID(rows, id)
      {
        ListsAt(rows, i);
        if items[i].Some? {
          found := found[rows[i].id := items[i].value];
        }
      }
    }

    method FindMissing(rows: seq<PageKey>, found: map<Uuid, Album>) returns (missing: seq<Uuid>)
      requires forall i :: 0 <= i < |rows| ==> Holds(found, rows[i].id, Runs.CachedByID(cache, rows[i].id))
      ensures forall id :: id in missing <==> Misses(cache, id) && ListsID(rows, id)
    {
      missing := [];
      for i := 0 to |rows|
        invariant forall id :: id in missing <==> Misses(cache, id) && ListsID(rows[..i], id)
      {
        assert rows[..i + 1] == rows[..i] + [rows[i]];
        assert Holds(found, rows[i].id, Runs.CachedByID(cache, rows[i].id));
        assert forall id :: ListsID(rows[..i + 1], id) <==> ListsID(rows[..i], id) || id == rows[i].id by {
          ListsSnoc(rows[..i], rows[i]);
        }
        if rows[i].id !in found || found[rows[i].id].id == NIL {
          missing := missing + [rows[i].id];
        }
      }
      assert rows[..|rows|] == rows;
    }

    method RestoreOrder(rows: seq<PageKey>, found: map<Uuid, Album>) returns (albums: seq<Album>)
      ensures albums == InOrder(rows, FromMap(found))
      ensures exists at :: Places(at, rows, FromMap(found), albums)
    {
      ghost var at := InOrderIndexed(rows, FromMap(found));
      hide Places;
      albums := [];
      for i := 0 to |rows|
        invariant albums == InOrder(rows[..i], FromMap(found))
      {
        assert rows[..i + 1][..i] == rows[..i];
        if rows[i].id in found {
          albums := albums + [found[rows[i].id]];
        }
      }
      assert rows[..|rows|] == rows;
    }

    /** Puts the fetched rows beside the cached ones and queues a fill for each. */
    method StoreFetched(found: map<Uuid, Album>, fetched: seq<Uuid>) returns (all: map<Uuid, Album>)
      requires Valid(db) && forall i :: 0 <= i < |fetched| ==> fetched[i] in db.albums
      modifies this`pending
      ensures all == Stored(found, db, fetched)
      ensures pending == old(pending) + Runs.FillAll(db, fetched)
    {
      hide Stored, Runs.FillAll, SetAlbum, Valid;
      all := found;
      ghost var fill := [];
      NothingFetched(found, db);
      assert fetched[..0] == [];
      for i := 0 to |fetched|
        invariant all == Stored(found, db, fetched[..i])
        invariant fill == Runs.FillAll(db, fetched[..i]) && pending == old(pending) + fill
      {
        assert fetched[..i + 1] == fetched[..i] + [fetched[i]];
        FillSnoc(db, fetched[..i], fetched[i]);
        StoredSnoc(found, db, fetched[..i], fetched[i]);
        var row := db.albums[fetched[i]];
        all := all[row.id := row];
        pending := pending + SetAlbum(row);
        fill := fill + SetAlbum(row);
      }
      assert fetched[..|fetched|] == fetched;
    }

    /** One page of a list of live albums, ids first and albums second. */
    method ListPage(visible: set<PageKey>, cursor: Option<PageKey>, limit: nat)
      returns (albums: seq<Album>, next: Option<PageKey>, ghost fetched: seq<Uuid>)
      requires Valid(db) && 1 <= limit
      modifies this`pending
      ensures St() == Runs.Next(old(St()), Runs.FetchByIDs(fetched))
      ensures next == PageOf(visible, cursor, limit).next
      ensures albums == InOrder(PageOf(visible, cursor, limit).items, FromCache(old(cache), db))
      ensures Runs.EntitiesCoherent(old(cache), db) ==>
                albums == InOrder(PageOf(visible, cursor, limit).items, FromTable(db))
      ensures FetchedFor(fetched, PageOf(visible, cursor, limit).items, old(cache), db)
    {
      hide Runs.Next, Runs.CachedByID, Runs.EntitiesCoherent, InOrder, Take, Sorted, Rest, Cut, Misses, ListsID, Valid;
      var rows := SelectKeys(visible, cursor, limit + 1);
      var queried, read;
      albums, next, queried, read := HydrateAlbumsList(rows, limit);
      fetched := read;
      if Runs.EntitiesCoherent(old(cache), db) {
        HydrationRefinesQuery(PageOf(visible, cursor, limit).items, old(cache), db);
      }
    }

    method ListAvailable(userID: Uuid, viewerEmail: string, cursor: Option<PageKey>, limit: nat)
      returns (albums: seq<Album>, next: Option<PageKey>, ghost fetched: seq<Uuid>)
      requires Valid(db) && 1 <= limit
      modifies this`pending
      ensures St() == Runs.Next(old(St()), Runs.FetchByIDs(fetched))
      ensures var p := PageOf(Access.AvailableKeys(db, userID, viewerEmail), cursor, limit);
              next == p.next && albums == InOrder(p.items, FromCache(old(cache), db))
              && (Runs.EntitiesCoherent(old(cache), db) ==> albums == InOrder(p.items, FromTable(db)))
              && FetchedFor(fetched, p.items, old(cache), db)
      ensures Runs.EntitiesCoherent(old(cache), db) ==>
                PageExact(db, albums, next, cursor, limit, DateAt, a => OnList(a, userID, NIL, viewerEmail))
    {
      albums, next, fetched := ListPage(Access.AvailableKeys(db, userID, viewerEmail), cursor, limit);
      ListKeysExact(db, userID, NIL, viewerEmail);
      PageIsExact(Access.AvailableKeys(db, userID, viewerEmail), cursor, limit, db, DateAt,
                  a => OnList(a, userID, NIL, viewerEmail));
    }

    method ListOwned(userID: Uuid, cursor: Option<PageKey>, limit: nat)
      returns (albums: seq<Album>, next: Option<PageKey>, ghost fetched: seq<Uuid>)
      requires Valid(db) && 1 <= limit
      modifies this`pending
      ensures St() == Runs.Next(old(St()), Runs.FetchByIDs(fetched))
      ensures var p := PageOf(Access.OwnedKeys(db, userID), cursor, limit);
              next == p.next && albums == InOrder(p.items, FromCache(old(cache), db))
              && (Runs.EntitiesCoherent(old(cache), db) ==> albums == InOrder(p.items, FromTable(db)))
              && FetchedFor(fetched, p.items, old(cache), db)
      ensures Runs.EntitiesCoherent(old(cache), db) && userID != NIL ==>
                PageExact(db, albums, next, cursor, limit, DateAt, a => OnList(a, userID, userID, ""))
    {
      albums, next, fetched := ListPage(Access.OwnedKeys(db, userID), cursor, limit);
      if userID != NIL {
        ListKeysExact(db, userID, userID, "");
        PageIsExact(Access.OwnedKeys(db, userID), cursor, limit, db, DateAt, a => OnList(a, userID, userID, ""));
      }
    }

    /** The handler's page of a user's list, for whoever is looking at it, with the limit
        of the query string if there is one. */
    method AvailableList(userID: Uuid, viewerID: Uuid, viewerEmail: string, cursor: Option<PageKey>,
                         limitParam: Option<int>, albumsPerPage: nat)
      returns (albums: seq<Album>, next: Option<PageKey>, ghost fetched: seq<Uuid>)
      requires Valid(db) && 1 <= albumsPerPage
      modifies this`pending
      ensures St() == Runs.Next(old(St()), Runs.FetchByIDs(fetched))
      ensures var asked := if limitParam.Some? then limitParam.value else albumsPerPage;
              var size := Access.ClampLimit(asked, albumsPerPage);
              var p := PageOf(Access.ListedKeys(db, userID, viewerID, viewerEmail), cursor, size);
              next == p.next && albums == InOrder(p.items, FromCache(old(cache), db))
              && (Runs.EntitiesCoherent(old(cache), db) ==> albums == InOrder(p.items, FromTable(db)))
              && FetchedFor(fetched, p.items, old(cache), db)
      ensures Runs.EntitiesCoherent(old(cache), db) ==>
                var asked := if limitParam.Some? then limitParam.value else albumsPerPage;
                var size := if 1 <= asked <= albumsPerPage then asked else albumsPerPage;
                PageExact(db, albums, next, cursor, size, DateAt, a => OnList(a, userID, viewerID, viewerEmail))
    {
      var limit: int := albumsPerPage;
      if limitParam.Some? {
        limit := limitParam.value;
      }
      var size := Access.ClampLimit(limit, albumsPerPage);
      if viewerID == NIL || viewerID != userID {
        albums, next, fetched := ListAvailable(userID, viewerEmail, cursor, size);
      } else {
        albums, next, fetched := ListOwned(viewerID, cursor, size);
      }
      ListKeysExact(db, userID, viewerID, viewerEmail);
      PageIsExact(Access.ListedKeys(db, userID, viewerID, viewerEmail), cursor, size, db, DateAt,
                  a => OnList(a, userID, viewerID, viewerEmail));
    }

    /** The list of deleted albums reads whole rows and bypasses the cache. */
    method ListTrashed(userID: Uuid, cursor: Option<PageKey>, limit: nat)
      returns (albums: seq<Album>, next: Option<PageKey>)
      requires Valid(db) && 1 <= limit
      ensures var p := PageOf(Access.TrashedKeys(db, userID), cursor, limit);
              next == p.next && albums == InOrder(p.items, FromTable(db))
      ensures PageExact(db, albums, next, cursor, limit, DeletionDate, a => OnTrash(a, userID))
    {
      var rows := SelectKeys(Access.TrashedKeys(db, userID), cursor, limit + 1);
      next := None;
      if |rows| == limit + 1 {
        rows := rows[..limit];
        next := Some(rows[|rows| - 1]);
      }
      albums := ReadRows(rows);
      TrashKeysExact(db, userID);
      PageIsExact(Access.TrashedKeys(db, userID), cursor, limit, db, DeletionDate, a => OnTrash(a, userID));
    }

    method ReadRows(rows: seq<PageKey>) returns (albums: seq<Album>)
      ensures albums == InOrder(rows, FromTable(db))
    {
      albums := [];
      for i := 0 to |rows|
        invariant albums == InOrder(rows[..i], FromTable(db))
      {
        assert rows[..i + 1][..i] == rows[..i];
        if rows[i].id in db.albums {
          albums := albums + [db.albums[rows[i].id]];
        }
      }
      assert rows[..|rows|] == rows;
    }
  }

  predicate Holds(found: map<Uuid, Album>, id: Uuid, value: Option<Album>) {
    if value.Some? then id in found && found[id] == value.value else id !in found
  }

  /** The cached albums with the fetched rows written over them. */
  function Stored(found: map<Uuid, Album>, db: Db, ids: seq<Uuid>): map<Uuid, Album> {
    if ids == [] then found else
      var last := ids[|ids| - 1];
      var rest := Stored(found, db, ids[..|ids| - 1]);
      if last in db.albums then rest[last := db.albums[last]] else rest
  }

  lemma {:induction false} StoredAt(found: map<Uuid, Album>, db: Db, ids: seq<Uuid>, id: Uuid)
    requires forall i :: 0 <= i < |ids| ==> ids[i] in db.albums
    ensures FromMap(Stored(found, db, ids))(id) == if id in ids then Some(db.albums[id]) else FromMap(found)(id)
  {
    if ids != [] {
      var init := ids[..|ids| - 1];
      StoredAt(found, db, init, id);
      assert ids == init + [ids[|ids| - 1]];
    }
  }

  lemma NothingFetched(found: map<Uuid, Album>, db: Db)
    ensures Stored(found, db, []) == found && Runs.FillAll(db, []) == []
  {
  }

  lemma StoredSnoc(found: map<Uuid, Album>, db: Db, ids: seq<Uuid>, id: Uuid)
    requires Valid(db) && id in db.albums
    ensures Stored(found, db, ids + [id]) == Stored(found, db, ids)[id := db.albums[id]] && db.albums[id].id == id
  {
    assert (ids + [id])[..|ids|] == ids;
  }

  predicate ListsID(rows: seq<PageKey>, id: Uuid) {
    exists i :: 0 <= i < |rows| && rows[i].id == id
  }

  lemma ListsAt(rows: seq<PageKey>, i: nat)
    requires i < |rows|
    ensures ListsID(rows, rows[i].id)
  {
  }

  lemma ListsSnoc(rows: seq<PageKey>, row: PageKey)
    ensures forall id :: ListsID(rows + [row], id) <==> ListsID(rows, id) || id == row.id
  {
    forall id | ListsID(rows, id) || id == row.id
      ensures ListsID(rows + [row], id)
    {
      if id == row.id {
        assert (rows + [row])[|rows|].id == id;
      } else {
        var i :| 0 <= i < |rows| && rows[i].id == id;
        assert (rows + [row])[i].id == id;
      }
    }
  }

  lemma FetchStep(s: Runs.State, ids: seq<Uuid>)
    ensures Runs.Next(s, Runs.FetchByIDs(ids)) == Runs.Enqueue(s, Runs.FillAll(s.db, ids))
  {
  }

  lemma FillSnoc(db: Db, ids: seq<Uuid>, id: Uuid)
    requires id in db.albums
    ensures Runs.FillAll(db, ids + [id]) == Runs.FillAll(db, ids) + SetAlbum(db.albums[id])
  {
    assert (ids + [id])[..|ids|] == ids;
  }

  lemma TakePrefix(rows: seq<PageKey>, rest: seq<PageKey>, limit: nat)
    requires |rows| <= limit && (rest == [] || |rows| == limit)
    ensures Take(rows + rest, limit) == rows
  {
  }

  lemma SortedFirst(k: PageKey, s: set<PageKey>)
    requires IsFirst(k, s)
    ensures k in s && Sorted(s) == [k] + Sorted(s - {k})
  {
    assert IsFirst(First(s), s);
  }
}
