/** Lists under any schedule. A page reads its ids first, the cached albums second and the
    rows the cache lacks third; anything may happen in between. */
module AlbumLists {
  import opened Wrappers
  import opened Uuids
  import opened AlbumTable
  import opened AlbumCache
  import opened Pagination
  import opened AlbumRepository
  import Runs = AlbumRuns
  import Access = AlbumAccess
  import Sharing = AlbumSharing

  /* ---------- whose albums a page shows ---------- */

  /** An entity of one world, or else a row of a later one, is a version of the album. */
  lemma HydratedKnown(v: Sharing.World, x: Sharing.World, id: Uuid, a: Album)
    requires Sharing.Inv(v) && Sharing.Inv(x) && v.history <= x.history
    requires Hydrated(v.s.cache, x.s.db, id) == Some(a)
    ensures a in x.history && a.id == id
  {
    if Runs.CachedByID(v.s.cache, id) == Some(a) {
      Sharing.CachedKnown(v, id, a);
    } else {
      assert x.s.db.albums[id] in Sharing.Rows(x.s.db);
    }
  }

  lemma {:induction false} InOrderMember(rows: seq<PageKey>, find: Uuid -> Option<Album>, a: Album) returns (i: nat)
    requires a in InOrder(rows, find)
    ensures i < |rows| && find(rows[i].id) == Some(a)
  {
    if find(rows[|rows| - 1].id) == Some(a) {
      i := |rows| - 1;
    } else {
      i := InOrderMember(rows[..|rows| - 1], find, a);
    }
  }

  /** The page of ids a viewer gets of a user's list. */
  ghost function PageRows(
    db: Db, userID: Uuid, viewerID: Uuid, viewerEmail: string, cursor: Option<PageKey>, limit: nat): seq<PageKey>
    requires 1 <= limit
  {
    PageOf(Access.ListedKeys(db, userID, viewerID, viewerEmail), cursor, limit).items
  }

  lemma PageRowsOwned(
    db: Db, userID: Uuid, viewerID: Uuid, viewerEmail: string, cursor: Option<PageKey>, limit: nat, i: nat)
    requires Valid(db) && 1 <= limit && i < |PageRows(db, userID, viewerID, viewerEmail, cursor, limit)|
    ensures var k := PageRows(db, userID, viewerID, viewerEmail, cursor, limit)[i];
            k.id in db.albums && db.albums[k.id].userID == userID
  {
    var rows := PageRows(db, userID, viewerID, viewerEmail, cursor, limit);
    PageSplits(Access.ListedKeys(db, userID, viewerID, viewerEmail), cursor, limit);
    assert rows[i] in rows;
    Access.ListedMembers(db, userID, viewerID, viewerEmail, rows[i]);
  }

  /** Under any schedule, with ids, entities and rows read in three different worlds, every
      album on a page of a user's list is a version that the table held of an album on the
      page of ids, and belongs to that user, as does every version of it. */
  lemma ListSnapshotSafety(
    u: Sharing.World, es: seq<Sharing.Event>, fs: seq<Sharing.Event>,
    userID: Uuid, viewerID: Uuid, viewerEmail: string, cursor: Option<PageKey>, limit: nat, a: Album, b: Album)
    requires Sharing.Inv(u) && Sharing.FreshRun(u, es) && Sharing.FreshRun(Sharing.Happenings(u, es), fs)
    requires 1 <= limit
    ensures var v := Sharing.Happenings(u, es);
            var x := Sharing.Happenings(v, fs);
            var rows := PageRows(u.s.db, userID, viewerID, viewerEmail, cursor, limit);
            a in InOrder(rows, FromCache(v.s.cache, x.s.db)) ==>
              && a in x.history && a.userID == userID && ListsID(rows, a.id)
              && (b in x.history && b.id == a.id ==> b.userID == userID)
  {
    var v := Sharing.Happenings(u, es);
    var x := Sharing.Happenings(v, fs);
    var rows := PageRows(u.s.db, userID, viewerID, viewerEmail, cursor, limit);
    Sharing.InvThroughout(u, es);
    Sharing.InvThroughout(v, fs);
    Sharing.HistoryGrows(u, es);
    Sharing.HistoryGrows(v, fs);
    hide Sharing.Happenings, Sharing.FreshRun, PageRows, Hydrated;
    if a in InOrder(rows, FromCache(v.s.cache, x.s.db)) {
      var i := InOrderMember(rows, FromCache(v.s.cache, x.s.db), a);
      HydratedKnown(v, x, rows[i].id, a);
      PageRowsOwned(u.s.db, userID, viewerID, viewerEmail, cursor, limit, i);
      assert u.s.db.albums[rows[i].id] in Sharing.Rows(u.s.db);
    }
  }

  /** Whether the viewer may see what is shown. With entities that agree with the table the
      rows are read from, a live album on a page passes the check of the single get if and
      only if it is in the viewer's list of that table, which need not be the table the ids
      were read from. */
  lemma ShownPassIff(
    ids: Db, c: Cache, rows: Db, userID: Uuid, viewerID: Uuid, viewerEmail: string,
    cursor: Option<PageKey>, limit: nat, a: Album)
    requires Valid(ids) && Valid(rows) && Runs.EntitiesCoherent(c, rows) && 1 <= limit
    requires forall id :: id in ids.albums && id in rows.albums ==> ids.albums[id].userID == rows.albums[id].userID
    requires a in InOrder(PageRows(ids, userID, viewerID, viewerEmail, cursor, limit), FromCache(c, rows)) && Live(a)
    ensures Access.GetAvailable(Success(a), viewerID, viewerEmail) == Success(a)
       <==> Access.KeyOf(a) in Access.ListedKeys(rows, userID, viewerID, viewerEmail)
  {
    var page := PageRows(ids, userID, viewerID, viewerEmail, cursor, limit);
    hide PageRows;
    HydrationRefinesQuery(page, c, rows);
    var i := InOrderMember(page, FromTable(rows), a);
    PageRowsOwned(ids, userID, viewerID, viewerEmail, cursor, limit, i);
    Access.ListedMembers(rows, userID, viewerID, viewerEmail, Access.KeyOf(a));
  }

  /** So a page whose ids and rows are read from one table shows a viewer nothing that the
      single get would refuse. */
  lemma ShownPass(
    db: Db, c: Cache, userID: Uuid, viewerID: Uuid, viewerEmail: string,
    cursor: Option<PageKey>, limit: nat, a: Album)
    requires Valid(db) && Runs.EntitiesCoherent(c, db) && 1 <= limit
    requires a in InOrder(PageRows(db, userID, viewerID, viewerEmail, cursor, limit), FromCache(c, db))
    ensures Access.GetAvailable(Success(a), viewerID, viewerEmail) == Success(a)
  {
    var page := PageRows(db, userID, viewerID, viewerEmail, cursor, limit);
    HydrationRefinesQuery(page, c, db);
    var i := InOrderMember(page, FromTable(db), a);
    PageSplits(Access.ListedKeys(db, userID, viewerID, viewerEmail), cursor, limit);
    assert page[i] in page;
    Access.ListedMembers(db, userID, viewerID, viewerEmail, page[i]);
    ShownPassIff(db, c, db, userID, viewerID, viewerEmail, cursor, limit, a);
  }

  /* ---------- a walk on a fixed table, on the columns ---------- */

  /** What one page gave its caller. */
  datatype Given = Given(albums: seq<Album>, next: Option<PageKey>, limit: nat)

  /** Pages asked for one after another, each with the cursor that the one before it gave,
      until one gives none. */
  ghost predicate WalkOf(
    db: Db, pages: seq<Given>, cursor: Option<PageKey>, date: Album -> int, on: Album -> bool)
  {
    && pages != []
    && PageExact(db, pages[0].albums, pages[0].next, cursor, pages[0].limit, date, on)
    && if pages[0].next == None then |pages| == 1 else WalkOf(db, pages[1..], pages[0].next, date, on)
  }

  function AllGiven(pages: seq<Given>): seq<Album> {
    if pages == [] then [] else pages[0].albums + AllGiven(pages[1..])
  }

  /** What the walk gives is what belongs on the list: laid end to end the pages are the
      stored albums that do, in strictly descending order of date and id, so each of them
      once. It holds for every list whose pages are exact, that of a user's albums as any
      viewer gets it and that of the deleted ones. */
  lemma {:induction false} WalkExact(
    db: Db, pages: seq<Given>, cursor: Option<PageKey>, date: Album -> int, on: Album -> bool)
    requires WalkOf(db, pages, cursor, date, on)
    ensures SortedBy(AllGiven(pages), date)
    ensures forall a :: a in AllGiven(pages) <==> StoredIn(db, a) && on(a) && After(a, cursor, date)
  {
    var first, rest := pages[0], AllGiven(pages[1..]);
    if first.next == None {
      assert rest == [] && first.albums + rest == first.albums;
    } else {
      WalkExact(db, pages[1..], first.next, date, on);
      assert first.albums[first.limit - 1] in first.albums;
      NextIsLater(first.albums[first.limit - 1], cursor, first.next.value, date);
      hide WalkOf, StoredIn;
      JoinSorted(first.albums, rest, first.next.value, date);
    }
  }

  lemma NextIsLater(last: Album, cursor: Option<PageKey>, next: PageKey, date: Album -> int)
    requires After(last, cursor, date) && next == KeyBy(last, date)
    ensures forall a :: After(a, Some(next), date) ==> After(a, cursor, date)
  {
  }

  lemma JoinSorted(a: seq<Album>, b: seq<Album>, next: PageKey, date: Album -> int)
    requires SortedBy(a, date) && SortedBy(b, date) && a != [] && next == KeyBy(a[|a| - 1], date)
    requires forall x :: x in b ==> After(x, Some(next), date)
    ensures SortedBy(a + b, date)
  {
    var q := a + b;
    forall i, j | 0 <= i < j < |q|
      ensures date(q[i]) > date(q[j]) || (date(q[i]) == date(q[j]) && q[i].id > q[j].id)
    {
      if i < |a| <= j {
        assert q[j] == b[j - |a|] && q[j] in b && After(q[j], Some(next), date);
        assert i == |a| - 1 || date(a[i]) > next.date || (date(a[i]) == next.date && a[i].id > next.id);
      } else if i >= |a| {
        assert q[i] == b[i - |a|] && q[j] == b[j - |a|];
      }
    }
  }

  /* ---------- a walk of hydrated pages ---------- */

  /** One page: the request for ids, the cache when the entities are read, and the table
      when the missing rows are read. */
  datatype Listing = Listing(request: Request, cache: Cache, rows: Db)

  predicate Limited(pages: seq<Listing>) {
    forall i :: 0 <= i < |pages| ==> 1 <= pages[i].request.limit
  }

  function RequestsOf(pages: seq<Listing>): (reqs: seq<Request>)
    ensures |reqs| == |pages| && forall i :: 0 <= i < |pages| ==> reqs[i] == pages[i].request
  {
    seq(|pages|, i requires 0 <= i < |pages| => pages[i].request)
  }

  /** The albums shown on all the pages, following the cursor. */
  ghost function Show(pages: seq<Listing>, cursor: Option<PageKey>): seq<Album>
    requires Limited(pages)
  {
    if pages == [] then [] else
      var p := PageOf(pages[0].request.visible, cursor, pages[0].request.limit);
      var shown := InOrder(p.items, FromCache(pages[0].cache, pages[0].rows));
      if p.next.None? then shown else shown + Show(pages[1..], p.next)
  }

  /** The key stays visible, is the only key of its album, and the album's row is there
      when the missing rows are read. What the cache holds is free, as long as an entity
      carries the id it is stored under. */
  ghost predicate StableAt(page: Listing, k: PageKey) {
    && k in page.request.visible && (forall j :: j in page.request.visible && j.id == k.id ==> j == k)
    && k.id in page.rows.albums && OwnIDs(page.cache, page.rows)
  }

  ghost predicate OwnIDs(c: Cache, db: Db) {
    forall id :: Hydrated(c, db, id).Some? ==> Hydrated(c, db, id).value.id == id
  }

  function Count(albums: seq<Album>, id: Uuid): nat {
    if albums == [] then 0 else
      Count(albums[..|albums| - 1], id) + if albums[|albums| - 1].id == id then 1 else 0
  }

  lemma {:induction false} CountConcat(a: seq<Album>, b: seq<Album>, id: Uuid)
    ensures Count(a + b, id) == Count(a, id) + Count(b, id)
    decreases |b|
  {
    if b == [] {
      assert a + b == a;
    } else {
      CountConcat(a, b[..|b| - 1], id);
      assert (a + b)[..|a + b| - 1] == a + b[..|b| - 1];
    }
  }

  /** The last row of a page comes after all others. */
  lemma LastOnce(rows: seq<PageKey>, k: PageKey)
    requires Descending(rows) && rows != []
    ensures var init, last := rows[..|rows| - 1], rows[|rows| - 1];
            && Descending(init) && last in rows && last !in init
            && (k in rows <==> k in init || k == last)
            && (forall j :: j in init ==> j in rows)
  {
    var init, last := rows[..|rows| - 1], rows[|rows| - 1];
    assert rows == init + [last];
    forall i | 0 <= i < |init|
      ensures init[i] != last
    {
      assert Before(rows[i], rows[|rows| - 1]);
    }
  }

  lemma CountOne(found: Option<Album>, id: Uuid)
    ensures Count(if found.Some? then [found.value] else [], id) == if found.Some? && found.value.id == id then 1 else 0
  {
    if found.Some? {
      assert [found.value][..0] == [];
    }
  }

  lemma OwnID(c: Cache, db: Db, id: Uuid)
    requires OwnIDs(c, db)
    ensures var found := FromCache(c, db)(id);
            (found.Some? ==> found.value.id == id) && (id in db.albums ==> found.Some?)
  {
  }

  lemma {:induction false} CountOnPage(rows: seq<PageKey>, c: Cache, db: Db, k: PageKey)
    requires Descending(rows) && OwnIDs(c, db) && k.id in db.albums
    requires forall j :: j in rows && j.id == k.id ==> j == k
    ensures Count(InOrder(rows, FromCache(c, db)), k.id) == if k in rows then 1 else 0
  {
    hide Hydrated, FromCache, OwnIDs, Descending, Count;
    if rows == [] {
      assert Count([], k.id) == 0 by {
        CountOne(None, k.id);
      }
    } else {
      var init, last := rows[..|rows| - 1], rows[|rows| - 1];
      var found := FromCache(c, db)(last.id);
      LastOnce(rows, k);
      CountOnPage(init, c, db, k);
      OwnID(c, db, last.id);
      CountOne(found, k.id);
      CountConcat(InOrder(init, FromCache(c, db)), if found.Some? then [found.value] else [], k.id);
    }
  }

  lemma {:induction false} StableCount(pages: seq<Listing>, cursor: Option<PageKey>, k: PageKey)
    requires Limited(pages) && Follow(RequestsOf(pages), cursor).complete
    requires forall i :: 0 <= i < |pages| ==> StableAt(pages[i], k)
    ensures Count(Show(pages, cursor), k.id) == if Past(k, cursor) then 1 else 0
  {
    var req := pages[0].request;
    var p := PageOf(req.visible, cursor, req.limit);
    var shown := InOrder(p.items, FromCache(pages[0].cache, pages[0].rows));
    assert StableAt(pages[0], k);
    PageSplits(req.visible, cursor, req.limit);
    CountOnPage(p.items, pages[0].cache, pages[0].rows, k);
    if p.next.None? {
      assert k in p.items <==> k in Elements(p.items);
    } else {
      assert RequestsOf(pages)[1..] == RequestsOf(pages[1..]);
      StableCount(pages[1..], p.next, k);
      CountConcat(shown, Show(pages[1..], p.next), k.id);
      KeyTurn(req.visible, cursor, req.limit, k);
    }
  }

  /** A visible key past the cursor is either on the page or past the next cursor. */
  lemma KeyTurn(visible: set<PageKey>, cursor: Option<PageKey>, limit: nat, k: PageKey)
    requires 1 <= limit && k in visible && PageOf(visible, cursor, limit).next.Some?
    ensures var p := PageOf(visible, cursor, limit);
            && (Past(k, cursor) <==> k in p.items || Past(k, p.next))
            && !(k in p.items && Past(k, p.next))
  {
    var p := PageOf(visible, cursor, limit);
    PageSplits(visible, cursor, limit);
    PastLater(k, p.next.value, cursor);
    assert k in Rest(visible, p.next) <==> k in Rest(visible, cursor) - Elements(p.items);
    assert k in p.items <==> k in Elements(p.items);
  }

  /** Stability, down to the albums: an album whose sort key stays fixed and visible, and
      whose row is not purged, is shown exactly once over a complete walk of hydrated
      pages, whatever the caches held and whatever else changed between any two reads. */
  lemma {:induction false} StableAlbumShownOnce(pages: seq<Listing>, k: PageKey)
    requires Limited(pages) && Follow(RequestsOf(pages), None).complete
    requires forall i :: 0 <= i < |pages| ==> StableAt(pages[i], k)
    ensures Count(Show(pages, None), k.id) == 1
  {
    StableCount(pages, None, k);
  }

  /** The conditions on a page hold under any schedule: reading ids, entities and rows in
      three worlds of a run gives such a page for every album that is in the list in the
      first and still in the table in the last. */
  lemma ReachablePageStable(
    u: Sharing.World, v: Sharing.World, x: Sharing.World,
    userID: Uuid, viewerID: Uuid, viewerEmail: string, limit: nat, k: PageKey)
    requires Sharing.Inv(u) && Sharing.Inv(v) && Sharing.Inv(x) && v.history <= x.history
    requires k in Access.ListedKeys(u.s.db, userID, viewerID, viewerEmail) && k.id in x.s.db.albums
    ensures var visible := Access.ListedKeys(u.s.db, userID, viewerID, viewerEmail);
            StableAt(Listing(Request(visible, limit), v.s.cache, x.s.db), k)
  {
    var visible := Access.ListedKeys(u.s.db, userID, viewerID, viewerEmail);
    forall j | j in visible && j.id == k.id
      ensures j == k
    {
      Access.ListedMembers(u.s.db, userID, viewerID, viewerEmail, j);
      Access.ListedMembers(u.s.db, userID, viewerID, viewerEmail, k);
    }
    forall id | Hydrated(v.s.cache, x.s.db, id).Some?
      ensures Hydrated(v.s.cache, x.s.db, id).value.id == id
    {
      HydratedKnown(v, x, id, Hydrated(v.s.cache, x.s.db, id).value);
    }
  }

  /* ---------- a walk over one run ---------- */

  /** How many events of a run have happened when a page reads its ids, the cached entities
      and the missing rows. */
  datatype Times = Times(ids: nat, cache: nat, rows: nat, limit: nat)

  /** Each page reads in that order, after the page before it. */
  predicate InTime(ts: seq<Times>, n: nat) {
    && (forall i :: 0 <= i < |ts| ==> ts[i].ids <= ts[i].cache <= ts[i].rows <= n && 1 <= ts[i].limit)
    && (forall i :: 0 < i < |ts| ==> ts[i - 1].rows <= ts[i].ids)
  }

  ghost function WorldAt(db: Db, es: seq<Sharing.Event>, n: nat): Sharing.World
    requires n <= |es|
  {
    Sharing.Happenings(Sharing.Fresh(db), es[..n])
  }

  ghost function PageAt(
    db: Db, es: seq<Sharing.Event>, t: Times, userID: Uuid, viewerID: Uuid, viewerEmail: string): Listing
    requires t.ids <= |es| && t.cache <= |es| && t.rows <= |es|
  {
    var visible := Access.ListedKeys(WorldAt(db, es, t.ids).s.db, userID, viewerID, viewerEmail);
    Listing(Request(visible, t.limit), WorldAt(db, es, t.cache).s.cache, WorldAt(db, es, t.rows).s.db)
  }

  ghost function PagesAt(
    db: Db, es: seq<Sharing.Event>, ts: seq<Times>, userID: Uuid, viewerID: Uuid, viewerEmail: string)
    : (pages: seq<Listing>)
    requires InTime(ts, |es|)
    ensures |pages| == |ts| && Limited(pages)
    ensures forall i :: 0 <= i < |ts| ==> pages[i] == PageAt(db, es, ts[i], userID, viewerID, viewerEmail)
  {
    seq(|ts|, i requires 0 <= i < |ts| => PageAt(db, es, ts[i], userID, viewerID, viewerEmail))
  }

  lemma FreshPrefix(w: Sharing.World, es: seq<Sharing.Event>, n: nat)
    requires Sharing.FreshRun(w, es) && n <= |es|
    ensures Sharing.FreshRun(w, es[..n])
  {
    forall i | 0 <= i < n
      ensures Sharing.FreshIn(Sharing.Happenings(w, es[..n][..i]), es[..n][i])
    {
      assert es[..n][..i] == es[..i];
    }
  }

  lemma {:induction false} HistoryBetween(w: Sharing.World, es: seq<Sharing.Event>, m: nat, n: nat)
    requires m <= n <= |es|
    ensures Sharing.Happenings(w, es[..m]).history <= Sharing.Happenings(w, es[..n]).history
  {
    hide Sharing.Happen;
    if m < n {
      HistoryBetween(w, es, m, n - 1);
      assert es[..n][..n - 1] == es[..n - 1];
      Sharing.HistoryKept(Sharing.Happenings(w, es[..n - 1]), es[n - 1]);
    }
  }

  lemma WorldSound(db: Db, es: seq<Sharing.Event>, n: nat)
    requires Valid(db) && Sharing.FreshRun(Sharing.Fresh(db), es) && n <= |es|
    ensures Sharing.Inv(WorldAt(db, es, n))
  {
    Sharing.StartInv(db);
    FreshPrefix(Sharing.Fresh(db), es, n);
    Sharing.InvThroughout(Sharing.Fresh(db), es[..n]);
  }

  /** Stability over any run of the program, from any valid table and an empty cache: the
      pages of a complete walk read their ids, entities and rows at successive moments of
      the run, and an album that is listed under its key whenever ids are read, and stored
      whenever rows are read, is shown exactly once. */
  lemma StableAlbumOverRun(
    db: Db, es: seq<Sharing.Event>, ts: seq<Times>, userID: Uuid, viewerID: Uuid, viewerEmail: string, k: PageKey)
    requires Valid(db) && Sharing.FreshRun(Sharing.Fresh(db), es) && InTime(ts, |es|)
    requires forall i :: 0 <= i < |ts| ==>
               && k in Access.ListedKeys(WorldAt(db, es, ts[i].ids).s.db, userID, viewerID, viewerEmail)
               && k.id in WorldAt(db, es, ts[i].rows).s.db.albums
    requires Follow(RequestsOf(PagesAt(db, es, ts, userID, viewerID, viewerEmail)), None).complete
    ensures Count(Show(PagesAt(db, es, ts, userID, viewerID, viewerEmail), None), k.id) == 1
  {
    var pages := PagesAt(db, es, ts, userID, viewerID, viewerEmail);
    hide StableAt, Sharing.Inv, Sharing.FreshRun, Sharing.Happenings, Follow;
    forall i | 0 <= i < |pages|
      ensures StableAt(pages[i], k)
    {
      var t := ts[i];
      WorldSound(db, es, t.ids);
      WorldSound(db, es, t.cache);
      WorldSound(db, es, t.rows);
      HistoryBetween(Sharing.Fresh(db), es, t.cache, t.rows);
      ReachablePageStable(WorldAt(db, es, t.ids), WorldAt(db, es, t.cache), WorldAt(db, es, t.rows),
                          userID, viewerID, viewerEmail, t.limit, k);
    }
    StableAlbumShownOnce(pages, k);
  }
}
