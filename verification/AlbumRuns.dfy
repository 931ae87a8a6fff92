/** The repository as a state machine: the table, the cache, and the cache commands that
    background goroutines have still to send. Every operation is one step; a run is a
    sequence of operations, key expiries and command executions. */
module AlbumRuns {
  import opened Wrappers
  import opened Uuids
  import opened AlbumTable
  import opened AlbumCache

  datatype State = State(db: Db, cache: Cache, pending: seq<Command>)

  datatype Op =
    | Create(id: Uuid, userID: Uuid, fields: AlbumFields, now: int)
    | Update(userID: Uuid, albumID: Uuid, fields: AlbumFields, now: int)
    | UpdateDirectToken(userID: Uuid, albumID: Uuid, newToken: Option<Uuid>, now: int)
    | ToggleActive(userID: Uuid, albumID: Uuid, isActive: bool, now: int)
    | Delete(userID: Uuid, albumID: Uuid, now: int)
    | Restore(userID: Uuid, albumID: Uuid, suffix: string, now: int)
    | Purge(userID: Uuid, albumID: Uuid)
    | GetBySlug(userID: Uuid, slug: string)
    | GetByID(userID: Uuid, albumID: Uuid)
    | GetByDirectToken(token: Uuid)
    | FetchByIDs(ids: seq<Uuid>)
    | ChangeUsers(activeUsers: set<Uuid>)
    | Expire(key: Key)
    | RunCommand(i: nat)
    | DropCommand(i: nat)

  /* ---------- reads ---------- */

  /** The answer of a read and the commands its background task will send. */
  datatype Read = Read(answer: Result<Album, SqlError>, fill: seq<Command>)

  /** The two-hop script: mapper key to id, id to entity. A missing mapper, a missing
      entity and a value that does not parse all count as a miss. */
  function CachedByMapper(c: Cache, mapper: Key): Option<Album> {
    if mapper in c && c[mapper].Text? then CachedByID(c, c[mapper].id) else None
  }

  function CachedByID(c: Cache, id: Uuid): Option<Album> {
    if EntityKey(id) in c && c[EntityKey(id)].Json? then Some(c[EntityKey(id)].album) else None
  }

  ghost function ReadBySlug(c: Cache, db: Db, userID: Uuid, slug: string): Read {
    match CachedByMapper(c, SlugKey(userID, slug))
    case Some(a) => Read(Success(a), [])
    case None =>
      var r := GetAlbumBySlug(db, userID, slug);
      Read(r, if r.Success? then SetAlbum(r.value) else [])
  }

  /** Only a cached album of the right user is served, and only a live row is cached. */
  function ReadByID(c: Cache, db: Db, userID: Uuid, albumID: Uuid): Read {
    var cached := CachedByID(c, albumID);
    if cached.Some? && cached.value.userID == userID then
      Read(Success(cached.value), [])
    else
      var r := GetAlbum(db, albumID, userID);
      Read(r, if r.Success? && Live(r.value) then SetAlbum(r.value) else [])
  }

  /** A cached album is served only if it is active and still carries the token. */
  ghost function ReadByDirectToken(c: Cache, db: Db, token: Uuid): Read {
    var cached := CachedByMapper(c, TokenKey(token));
    if cached.Some? && cached.value.isActive && cached.value.directToken == Some(token) then
      Read(Success(cached.value), [])
    else
      var r := GetAlbumByDirectToken(db, token);
      Read(r, if r.Success? then SetAlbum(r.value) else [])
  }

  /** The cache commands of a list hydration: every fetched row is cached, whether or not
      it has been deleted since the page of ids was read. */
  function FillAll(db: Db, ids: seq<Uuid>): seq<Command> {
    if ids == [] then [] else
      var last := ids[|ids| - 1];
      FillAll(db, ids[..|ids| - 1]) + if last in db.albums then SetAlbum(db.albums[last]) else []
  }

  predicate AllLive(db: Db, ids: seq<Uuid>) {
    forall i :: 0 <= i < |ids| && ids[i] in db.albums ==> Live(db.albums[ids[i]])
  }

  /* ---------- steps ---------- */

  predicate IsWrite(op: Op) {
    op.Create? || op.Update? || op.UpdateDirectToken? || op.ToggleActive? || op.Delete? || op.Restore? || op.Purge?
  }

  /** The statement of a write. */
  function Write(db: Db, op: Op): Result<Written, SqlError>
    requires IsWrite(op)
  {
    match op
    case Create(id, userID, fields, now) => CreateAlbum(db, id, userID, fields, now)
    case Update(userID, albumID, fields, now) => UpdateAlbum(db, userID, albumID, fields, now)
    case UpdateDirectToken(userID, albumID, newToken, now) => UpdateAlbumDirectToken(db, userID, albumID, newToken, now)
    case ToggleActive(userID, albumID, isActive, now) => ToggleAlbumActive(db, userID, albumID, isActive, now)
    case Delete(userID, albumID, now) => SoftDeleteAlbum(db, userID, albumID, now)
    case Restore(userID, albumID, suffix, now) => RestoreAlbum(db, userID, albumID, suffix, now)
    case Purge(userID, albumID) => HardDeleteAlbum(db, userID, albumID)
  }

  /** The commands its background task will send: an update also unlinks the mapper of a
      changed slug; restoring and purging send nothing. */
  function Task(op: Op, w: Written): seq<Command> {
    if op.Restore? || op.Purge? then []
    else if op.Delete? then InvalidateAlbum(w.album)
    else if op.Update? && w.was.slug != w.album.slug then
      [Unlink({SlugKey(w.album.userID, w.was.slug)})] + SetAlbum(w.album)
    else SetAlbum(w.album)
  }

  /** The mapper of a replaced token is unlinked before the call returns, ahead of any
      pending command. */
  function UnlinkedNow(op: Op, w: Written): set<Key> {
    if op.UpdateDirectToken? && w.was.directToken.Some? then {TokenKey(w.was.directToken.value)} else {}
  }

  function AfterWrite(s: State, op: Op): State
    requires IsWrite(op)
  {
    var r := Write(s.db, op);
    if r.Failure? then s
    else State(r.value.db, s.cache - UnlinkedNow(op, r.value), s.pending + Task(op, r.value))
  }

  function Enqueue(s: State, cmds: seq<Command>): State {
    s.(pending := s.pending + cmds)
  }

  ghost function Next(s: State, op: Op): State {
    match op
    case GetBySlug(userID, slug) => Enqueue(s, ReadBySlug(s.cache, s.db, userID, slug).fill)
    case GetByID(userID, albumID) => Enqueue(s, ReadByID(s.cache, s.db, userID, albumID).fill)
    case GetByDirectToken(token) => Enqueue(s, ReadByDirectToken(s.cache, s.db, token).fill)
    case FetchByIDs(ids) => Enqueue(s, FillAll(s.db, ids))
    case ChangeUsers(activeUsers) => s.(db := s.db.(activeUsers := activeUsers))
    case Expire(key) => s.(cache := s.cache - {key})
    case RunCommand(i) =>
      if i < |s.pending| then State(s.db, Exec(s.cache, s.pending[i]), s.pending[..i] + s.pending[i + 1..]) else s
    case DropCommand(i) =>
      if i < |s.pending| then s.(pending := s.pending[..i] + s.pending[i + 1..]) else s
    case _ => AfterWrite(s, op)
  }

  lemma NextIsAfterWrite(s: State, op: Op)
    requires IsWrite(op)
    ensures Next(s, op) == AfterWrite(s, op)
  {
    hide AfterWrite;
  }

  /** Only writes that succeed change the albums. */
  lemma NextAlbums(s: State, op: Op)
    ensures Next(s, op).db.albums
         == if IsWrite(op) && Write(s.db, op).Success? then Write(s.db, op).value.db.albums else s.db.albums
  {
    if IsWrite(op) {
      NextIsAfterWrite(s, op);
      hide Next, Write, Task, UnlinkedNow;
    } else {
      hide Next;
      OthersKeepAlbums(s, op);
    }
  }

  lemma OthersKeepAlbums(s: State, op: Op)
    requires !IsWrite(op)
    ensures Next(s, op).db.albums == s.db.albums
  {
    hide Write, ReadBySlug, ReadByID, ReadByDirectToken, FillAll, Exec;
    match op
    case GetBySlug(_, _) =>
    case GetByID(_, _) =>
    case GetByDirectToken(_) =>
    case FetchByIDs(_) =>
    case ChangeUsers(_) =>
    case Expire(_) =>
    case RunCommand(_) =>
    case DropCommand(_) =>
  }

  ghost function Run(s: State, ops: seq<Op>): State {
    if ops == [] then s else Next(Run(s, ops[..|ops| - 1]), ops[|ops| - 1])
  }

  /** The scheduler keeps, key by key, the order in which the commands were issued, and
      every command is carried out. Commit order is the special case `i == 0`. */
  ghost predicate Orderly(s: State, op: Op) {
    && (op.RunCommand? && op.i < |s.pending| ==> Foremost(s.pending, op.i))
    && !op.DropCommand?
  }

  ghost predicate OrderlyRun(s: State, ops: seq<Op>) {
    forall i :: 0 <= i < |ops| ==> Orderly(Run(s, ops[..i]), ops[i])
  }

  /** A hydration that fetches no row deleted since its page of ids was read. */
  predicate FetchesLive(s: State, op: Op) {
    op.FetchByIDs? ==> AllLive(s.db, op.ids)
  }

  /* ---------- coherence ---------- */

  predicate Agrees(key: Key, v: Value, db: Db) {
    match key
    case EntityKey(id) => id in db.albums && Live(db.albums[id]) && v == Json(db.albums[id])
    case SlugKey(userID, slug) => v.Text? && v.id in db.albums && HasSlug(db.albums[v.id], userID, slug)
    case TokenKey(_) => v.Text?
  }

  /** Each cached entity is the live row, and each slug mapper points to the live row
      with that user and slug. Token mappers may be stale. */
  ghost predicate Coherent(c: Cache, db: Db) {
    forall key :: key in c ==> Agrees(key, c[key], db)
  }

  /** The cache once every pending command has run. */
  function Settled(s: State): Cache {
    Drain(s.cache, s.pending)
  }

  lemma CoherentAfterLoss(c: Cache, d: Cache, db: Db)
    requires Coherent(c, db)
    requires forall key :: Look(d, key) == Look(c, key) || Look(d, key) == None
    ensures Coherent(d, db)
  {
    forall key | key in d
      ensures Agrees(key, d[key], db)
    {
      assert Look(d, key) == Some(d[key]);
    }
  }

  /** Caching a live row keeps coherence once no other slug mapper points to it. */
  lemma SetAlbumCoherent(c: Cache, db: Db, db': Db, a: Album)
    requires Coherent(c, db) && Valid(db')
    requires db'.albums == db.albums[a.id := a] && Live(a)
    requires forall u, s :: SlugKey(u, s) in c && c[SlugKey(u, s)] == Text(a.id) ==> HasSlug(a, u, s)
    ensures Coherent(Drain(c, SetAlbum(a)), db')
  {
    SetAlbumEffect(c, a);
    var d := Drain(c, SetAlbum(a));
    forall key | key in d
      ensures Agrees(key, d[key], db')
    {
      if key in c && d[key] == c[key] {
        assert Agrees(key, c[key], db);
      }
    }
  }

  /** Caching the new version of a live row, after unlinking its old slug mapper if the
      slug has changed. */
  lemma UpdateCoherent(c: Cache, db: Db, w: Written)
    requires Coherent(c, db) && Valid(w.db) && Changes(db, w) && Live(w.was) && Live(w.album)
    ensures w.was.slug == w.album.slug ==> Coherent(Drain(c, SetAlbum(w.album)), w.db)
    ensures Coherent(Drain(c, [Unlink({SlugKey(w.album.userID, w.was.slug)})] + SetAlbum(w.album)), w.db)
  {
    var a, was := w.album, w.was;
    var unlink := Unlink({SlugKey(a.userID, was.slug)});
    var c' := c - {SlugKey(a.userID, was.slug)};
    DrainSnoc(c, [], unlink);
    assert [] + [unlink] == [unlink];
    DrainConcat(c, [unlink], SetAlbum(a));
    forall u, s | SlugKey(u, s) in c && c[SlugKey(u, s)] == Text(a.id)
      ensures u == was.userID && s == was.slug
    {
      assert Agrees(SlugKey(u, s), c[SlugKey(u, s)], db);
    }
    SetAlbumCoherent(c', db, w.db, a);
    if was.slug == a.slug {
      SetAlbumCoherent(c, db, w.db, a);
    }
  }

  lemma DeleteCoherent(c: Cache, db: Db, w: Written)
    requires Coherent(c, db) && Valid(db) && Changes(db, w) && w.was.slug == w.album.slug
    ensures Coherent(Drain(c, InvalidateAlbum(w.album)), w.db)
  {
    var a := w.album;
    InvalidateAlbumEffect(c, a);
    var d := Drain(c, InvalidateAlbum(a));
    forall key | key in d
      ensures Agrees(key, d[key], w.db)
    {
      assert Agrees(key, c[key], db);
    }
  }

  /** The cache never speaks of a deleted row, so restoring or purging it changes nothing. */
  lemma DeletedRowAbsent(c: Cache, db: Db, db': Db, id: Uuid)
    requires Coherent(c, db)
    requires id in db.albums && !Live(db.albums[id])
    requires db'.albums - {id} == db.albums - {id}
    ensures Coherent(c, db')
  {
    forall key | key in c
      ensures Agrees(key, c[key], db')
    {
      assert Agrees(key, c[key], db);
      assert forall other :: other in db.albums && other != id ==> other in db.albums - {id};
      assert forall other :: other in db.albums - {id} ==> other in db'.albums && db'.albums[other] == db.albums[other];
    }
  }

  lemma {:induction false} FillAllHolds(c: Cache, db: Db, ids: seq<Uuid>, id: Uuid)
    requires id in ids && id in db.albums && Valid(db)
    ensures Look(Drain(c, FillAll(db, ids)), EntityKey(id)) == Some(Json(db.albums[id]))
  {
    hide SetAlbum, Drain;
    var init, last := ids[..|ids| - 1], ids[|ids| - 1];
    if last in db.albums {
      DrainConcat(c, FillAll(db, init), SetAlbum(db.albums[last]));
      SetAlbumEffect(Drain(c, FillAll(db, init)), db.albums[last]);
    } else {
      assert FillAll(db, init) + [] == FillAll(db, init);
    }
    if last != id {
      assert ids == init + [last];
      FillAllHolds(c, db, init, id);
    }
  }

  lemma {:induction false} FillAllCoherent(c: Cache, db: Db, ids: seq<Uuid>)
    requires Coherent(c, db) && Valid(db) && AllLive(db, ids)
    ensures Coherent(Drain(c, FillAll(db, ids)), db)
  {
    if ids != [] {
      var init, last := ids[..|ids| - 1], ids[|ids| - 1];
      FillAllCoherent(c, db, init);
      var fill := if last in db.albums then SetAlbum(db.albums[last]) else [];
      DrainConcat(c, FillAll(db, init), fill);
      if last in db.albums {
        FillLive(Drain(c, FillAll(db, init)), db, db.albums[last]);
      }
    }
  }

  lemma FillLive(c: Cache, db: Db, a: Album)
    requires Coherent(c, db) && Valid(db)
    requires a.id in db.albums && db.albums[a.id] == a && Live(a)
    ensures Coherent(Drain(c, SetAlbum(a)), db)
  {
    assert db.albums[a.id := a] == db.albums;
    forall u, s | SlugKey(u, s) in c && c[SlugKey(u, s)] == Text(a.id)
      ensures HasSlug(a, u, s)
    {
      assert Agrees(SlugKey(u, s), c[SlugKey(u, s)], db);
    }
    SetAlbumCoherent(c, db, db, a);
  }

  /** A hydration keeps the settled cache coherent exactly when every row it fetches is
      live: the read by id has the missing guard, the read of many ids does not. */
  lemma FetchCoherentIff(c: Cache, db: Db, ids: seq<Uuid>)
    requires Coherent(c, db) && Valid(db)
    ensures Coherent(Drain(c, FillAll(db, ids)), db) <==> AllLive(db, ids)
  {
    if AllLive(db, ids) {
      FillAllCoherent(c, db, ids);
    } else {
      var i :| 0 <= i < |ids| && ids[i] in db.albums && !Live(db.albums[ids[i]]);
      FillAllHolds(c, db, ids, ids[i]);
      var d := Drain(c, FillAll(db, ids));
      assert !Agrees(EntityKey(ids[i]), d[EntityKey(ids[i])], db);
    }
  }

  /** The row was there before, and no more than it changes; it stays with its user. */
  predicate Changes(db: Db, w: Written) {
    && w.was.id == w.album.id && w.was.userID == w.album.userID
    && w.album.id in db.albums && db.albums[w.album.id] == w.was
    && w.db.albums == db.albums[w.album.id := w.album]
  }

  /** What each write does to the table. */
  lemma WriteShape(db: Db, op: Op)
    requires Valid(db) && IsWrite(op) && Write(db, op).Success?
    ensures var w := Write(db, op).value;
            && w.db.activeUsers == db.activeUsers
            && (op.Create? ==> op.id !in db.albums && w.album.id == op.id && Live(w.album) && w.was == w.album
                               && w.db.albums == db.albums[op.id := w.album])
            && (op.Purge? ==> op.albumID in db.albums && !Live(db.albums[op.albumID])
                              && w.db.albums == db.albums - {op.albumID})
            && (!op.Create? && !op.Purge? ==> Changes(db, w))
            && (!op.Create? && !op.Purge? ==> Live(w.was) == !op.Restore? && Live(w.album) == !op.Delete?)
            && (op.UpdateDirectToken? || op.ToggleActive? || op.Delete? ==> w.was.slug == w.album.slug)
            && (!op.Purge? ==> Put(db, w.album, w.was) == Success(w))
  {
    hide SlugTaken, TokenTaken;
    match op
    case Create(_, _, _, _) =>
    case Update(_, _, _, _) =>
    case UpdateDirectToken(_, _, _, _) =>
    case ToggleActive(_, _, _, _) =>
    case Delete(_, _, _) =>
    case Restore(_, _, _, _) =>
    case Purge(_, _) =>
  }

  /** Every step keeps the table's constraints. */
  lemma NextValid(s: State, op: Op)
    requires Valid(s.db)
    ensures Valid(Next(s, op).db)
  {
    hide Next, Write, Valid;
    NextAlbums(s, op);
    if IsWrite(op) && Write(s.db, op).Success? {
      WriteValid(s.db, op);
      ValidByAlbums(Write(s.db, op).value.db, Next(s, op).db);
    } else {
      ValidByAlbums(s.db, Next(s, op).db);
    }
  }

  lemma WriteValid(db: Db, op: Op)
    requires Valid(db) && IsWrite(op) && Write(db, op).Success?
    ensures Valid(Write(db, op).value.db)
  {
    var w := Write(db, op).value;
    WriteShape(db, op);
    hide Write;
    if !op.Purge? {
      PutKeepsValid(db, w.album, w.was);
    }
  }

  lemma ValidByAlbums(db: Db, db': Db)
    requires Valid(db) && db.albums == db'.albums
    ensures Valid(db')
  {
  }

  /** A stored row of the requester, who is not deleted; the row itself is deleted or not,
      as asked. */
  predicate Permitted(db: Db, userID: Uuid, albumID: Uuid, deleted: bool) {
    && albumID in db.albums && db.albums[albumID].userID == userID
    && (if deleted then db.albums[albumID].deletedAt != None else db.albums[albumID].deletedAt == None)
    && userID in db.activeUsers
  }

  /** No other row of the user that is not deleted has the slug. */
  predicate SlugFree(db: Db, userID: Uuid, slug: string, albumID: Uuid) {
    forall id :: id in db.albums && id != albumID && db.albums[id].userID == userID && db.albums[id].slug == slug ==>
      db.albums[id].deletedAt != None
  }

  /** No other row, deleted or not, has the token. */
  predicate TokenFree(db: Db, token: Option<Uuid>, albumID: Uuid) {
    token == None || forall id :: id in db.albums && id != albumID ==> db.albums[id].directToken != token
  }

  /** Who may write what: the requester, the row and the columns the statement needs. */
  predicate MayWrite(db: Db, op: Op)
    requires IsWrite(op)
  {
    match op
    case Create(_, userID, _, _) => userID in db.activeUsers
    case Update(userID, albumID, _, _) => Permitted(db, userID, albumID, false)
    case UpdateDirectToken(userID, albumID, _, _) => Permitted(db, userID, albumID, false)
    case ToggleActive(userID, albumID, _, _) => Permitted(db, userID, albumID, false)
    case Delete(userID, albumID, _) => Permitted(db, userID, albumID, false)
    case Restore(userID, albumID, _, _) => Permitted(db, userID, albumID, true)
    case Purge(userID, albumID) => Permitted(db, userID, albumID, true)
  }

  /** Whether the row to be stored respects the unique columns. */
  predicate NothingTaken(db: Db, op: Op)
    requires IsWrite(op) && MayWrite(db, op)
  {
    match op
    case Create(id, userID, f, _) => id !in db.albums && SlugFree(db, userID, f.slug, id)
    case Update(userID, albumID, f, _) => SlugFree(db, userID, f.slug, albumID)
    case UpdateDirectToken(_, albumID, newToken, _) => TokenFree(db, newToken, albumID)
    case Restore(userID, albumID, suffix, _) =>
      var slug := db.albums[albumID].slug;
      SlugFree(db, userID, slug, albumID) || SlugFree(db, userID, Suffixed(slug, suffix), albumID)
    case _ => true
  }

  /** A write succeeds if and only if the requester is not deleted and owns the stored row,
      which is deleted for a restore or a purge and is not for the others, and the slug and
      token it brings are free. Otherwise it reports that there is no such row or, with the
      row there, that something is taken. */
  lemma WriteSucceedsIff(db: Db, op: Op)
    requires Valid(db) && IsWrite(op)
    ensures Write(db, op).Success? <==> MayWrite(db, op) && NothingTaken(db, op)
    ensures Write(db, op).Failure? ==> Write(db, op).error == if MayWrite(db, op) then UniqueViolation else NoRows
  {
    if !op.Create? && op.albumID in db.albums {
      OwnColumnsFree(db, op.albumID);
    }
    hide Valid;
    match op
    case Create(_, _, _, _) =>
    case Update(_, _, _, _) =>
    case UpdateDirectToken(_, _, _, _) =>
    case ToggleActive(_, _, _, _) =>
    case Delete(_, _, _) =>
    case Restore(_, _, _, _) =>
    case Purge(_, _) =>
  }

  /** A write that succeeds is one on the row it names. */
  lemma OwnRow(db: Db, op: Op)
    requires Valid(db) && IsWrite(op) && !op.Create?
    ensures Write(db, op).Success? ==>
              var w := Write(db, op).value;
              && op.albumID in db.albums && w.was == db.albums[op.albumID] && w.album.id == op.albumID
              && w.album.userID == op.userID
  {
    if Write(db, op).Success? {
      WriteShape(db, op);
      hide Valid;
    }
  }

  /** What a stored row already has is not taken by another. */
  lemma OwnColumnsFree(db: Db, albumID: Uuid)
    requires Valid(db) && albumID in db.albums
    ensures var a := db.albums[albumID];
            && a.id == albumID && !TokenTaken(db, a.directToken, albumID)
            && (Live(a) ==> !SlugTaken(db, a.userID, a.slug, albumID))
  {
    forall id | id in db.albums && id != albumID
      ensures !Clash(db.albums[id], db.albums[albumID])
    {
    }
  }

  /** The row carries the columns of a request. */
  predicate Carries(a: Album, f: AlbumFields) {
    && a.slug == f.slug && a.access == f.access && a.sharedEmails == f.sharedEmails
    && a.dateAt == f.dateAt && a.isActive == f.isActive && a.content == f.content
  }

  /** The row has the columns the request asks for and the time of the request as that of
      its last update, and nothing else of it has changed. */
  predicate AsRequested(op: Op, was: Album, a: Album)
    requires IsWrite(op)
  {
    var kept := a.(updatedAt := was.updatedAt);
    && (!op.Purge? ==> a.updatedAt == op.now)
    && match op
    case Create(id, userID, f, _) => Carries(a, f) && a.id == id && a.userID == userID && a.directToken.None? && Live(a)
    case Update(_, _, f, _) =>
      && Carries(a, f)
      && kept.(slug := was.slug, access := was.access, sharedEmails := was.sharedEmails, dateAt := was.dateAt,
               isActive := was.isActive, content := was.content) == was
    case UpdateDirectToken(_, _, newToken, _) =>
      a.directToken == newToken && kept.(directToken := was.directToken) == was
    case ToggleActive(_, _, isActive, _) => a.isActive == isActive && kept.(isActive := was.isActive) == was
    case Delete(_, _, now) => a.deletedAt == Some(now) && kept.(deletedAt := was.deletedAt) == was
    case Restore(_, _, _, _) => Live(a) && kept.(deletedAt := was.deletedAt, slug := was.slug) == was
    case Purge(_, _) => a == was
  }

  /** A row just written is as requested and is what the table's lookups then give: a live
      one under its slug, an active one under its token, and nothing any longer under a
      token that was replaced or a slug that was given up. No other row has changed. */
  lemma WriteReadBack(db: Db, op: Op, other: Uuid)
    requires Valid(db) && IsWrite(op) && Write(db, op).Success? && !op.Purge?
    ensures var w := Write(db, op).value;
            var a := w.album;
            && AsRequested(op, w.was, a)
            && (other != a.id ==> (other in w.db.albums <==> other in db.albums)
                                  && (other in db.albums ==> w.db.albums[other] == db.albums[other]))
            && (Live(a) ==> GetAlbumBySlug(w.db, a.userID, a.slug) == Success(a))
            && (Live(a) && a.isActive && a.directToken.Some? ==>
                 GetAlbumByDirectToken(w.db, a.directToken.value) == Success(a))
            && (Live(w.was) && !HasSlug(a, w.was.userID, w.was.slug) ==>
                 GetAlbumBySlug(w.db, w.was.userID, w.was.slug) == Failure(NoRows))
            && (w.was.directToken.Some? && a.directToken != w.was.directToken ==>
                 GetAlbumByDirectToken(w.db, w.was.directToken.value) == Failure(NoRows))
  {
    WriteShape(db, op);
    WriteAsRequested(db, op);
    hide Write;
    WriteLookups(db, Write(db, op).value, op.Create?);
  }

  lemma WriteAsRequested(db: Db, op: Op)
    requires Valid(db) && IsWrite(op) && Write(db, op).Success? && !op.Purge?
    ensures AsRequested(op, Write(db, op).value.was, Write(db, op).value.album)
  {
    hide SlugTaken, TokenTaken;
  }

  lemma WriteLookups(db: Db, w: Written, created: bool)
    requires Valid(db) && Put(db, w.album, w.was) == Success(w) && w.db.albums == db.albums[w.album.id := w.album]
    requires if created then w.was == w.album else w.album.id in db.albums && db.albums[w.album.id] == w.was
    ensures var a := w.album;
            && (Live(a) ==> GetAlbumBySlug(w.db, a.userID, a.slug) == Success(a))
            && (Live(a) && a.isActive && a.directToken.Some? ==>
                 GetAlbumByDirectToken(w.db, a.directToken.value) == Success(a))
            && (Live(w.was) && !HasSlug(a, w.was.userID, w.was.slug) ==>
                 GetAlbumBySlug(w.db, w.was.userID, w.was.slug) == Failure(NoRows))
            && (w.was.directToken.Some? && a.directToken != w.was.directToken ==>
                 GetAlbumByDirectToken(w.db, w.was.directToken.value) == Failure(NoRows))
  {
    PutKeepsValid(db, w.album, w.was);
    var a := w.album;
    if Live(a) {
      SlugLookupUnique(w.db, a.id, a.userID, a.slug);
    }
    if Live(a) && a.isActive && a.directToken.Some? {
      TokenLookupUnique(w.db, a.id, a.directToken.value);
    }
    if !created {
      forall id | id in db.albums && id != a.id
        ensures !Clash(db.albums[id], w.was)
      {
      }
    }
  }

  /** The commands of a write, drained on top of a coherent cache. */
  lemma TaskCoherent(c: Cache, db: Db, op: Op)
    requires Valid(db) && Coherent(c, db) && IsWrite(op) && Write(db, op).Success?
    requires Valid(Write(db, op).value.db)
    ensures var w := Write(db, op).value; Coherent(Drain(c, Task(op, w)), w.db)
  {
    var w := Write(db, op).value;
    WriteShape(db, op);
    if op.Create? {
      forall u, slug | SlugKey(u, slug) in c
        ensures c[SlugKey(u, slug)] != Text(op.id)
      {
        assert Agrees(SlugKey(u, slug), c[SlugKey(u, slug)], db);
      }
      SetAlbumCoherent(c, db, w.db, w.album);
    } else if op.Delete? {
      DeleteCoherent(c, db, w);
    } else if op.Restore? {
      DeletedRowAbsent(c, db, w.db, w.album.id);
    } else if op.Purge? {
      DeletedRowAbsent(c, db, w.db, op.albumID);
    } else {
      UpdateCoherent(c, db, w);
    }
  }

  /** Losing keys ahead of the pending commands. */
  lemma LossCoherent(s: State, lost: set<Key>)
    requires Coherent(Settled(s), s.db)
    ensures Coherent(Drain(s.cache - lost, s.pending), s.db)
  {
    forall key
      ensures Look(Drain(s.cache - lost, s.pending), key) == Look(Settled(s), key)
           || Look(Drain(s.cache - lost, s.pending), key) == None
    {
      DrainAfterLoss(s.cache, lost, s.pending, key);
    }
    CoherentAfterLoss(Settled(s), Drain(s.cache - lost, s.pending), s.db);
  }

  lemma WriteCoherent(s: State, op: Op)
    requires Valid(s.db) && Coherent(Settled(s), s.db) && IsWrite(op)
    ensures Coherent(Settled(Next(s, op)), Next(s, op).db)
  {
    if Write(s.db, op).Success? {
      var w := Write(s.db, op).value;
      NextValid(s, op);
      LossCoherent(s, UnlinkedNow(op, w));
      var cache := s.cache - UnlinkedNow(op, w);
      DrainConcat(cache, s.pending, Task(op, w));
      TaskCoherent(Drain(cache, s.pending), s.db, op);
    }
  }

  lemma ReadCoherent(s: State, read: Read)
    requires Valid(s.db) && Coherent(Settled(s), s.db)
    requires read.fill == [] || (read.answer.Success? && read.fill == SetAlbum(read.answer.value)
                                 && Live(read.answer.value) && read.answer.value.id in s.db.albums
                                 && s.db.albums[read.answer.value.id] == read.answer.value)
    ensures Coherent(Settled(Enqueue(s, read.fill)), s.db)
  {
    DrainConcat(s.cache, s.pending, read.fill);
    if read.fill != [] {
      FillLive(Settled(s), s.db, read.answer.value);
    }
  }

  lemma UsersCoherent(c: Cache, db: Db, activeUsers: set<Uuid>)
    requires Coherent(c, db)
    ensures Coherent(c, db.(activeUsers := activeUsers))
  {
    forall key | key in c
      ensures Agrees(key, c[key], db.(activeUsers := activeUsers))
    {
      assert Agrees(key, c[key], db);
    }
  }

  lemma ReadStepCoherent(s: State, op: Op)
    requires Valid(s.db) && Coherent(Settled(s), s.db) && (op.GetBySlug? || op.GetByID? || op.GetByDirectToken?)
    ensures Coherent(Settled(Next(s, op)), Next(s, op).db)
  {
    hide Coherent, Settled;
    match op
    case GetBySlug(userID, slug) => ReadCoherent(s, ReadBySlug(s.cache, s.db, userID, slug));
    case GetByID(userID, albumID) => ReadCoherent(s, ReadByID(s.cache, s.db, userID, albumID));
    case GetByDirectToken(token) => ReadCoherent(s, ReadByDirectToken(s.cache, s.db, token));
  }

  lemma FetchStepCoherentIff(s: State, ids: seq<Uuid>)
    requires Valid(s.db) && Coherent(Settled(s), s.db)
    ensures var t := Next(s, FetchByIDs(ids)); Coherent(Settled(t), t.db) <==> AllLive(s.db, ids)
  {
    hide Coherent, Valid, AllLive;
    DrainConcat(s.cache, s.pending, FillAll(s.db, ids));
    FetchCoherentIff(Settled(s), s.db, ids);
  }

  lemma OtherStepCoherent(s: State, op: Op)
    requires Valid(s.db) && Coherent(Settled(s), s.db) && Orderly(s, op)
    requires op.ChangeUsers? || op.Expire? || op.RunCommand?
    ensures Coherent(Settled(Next(s, op)), Next(s, op).db)
  {
    hide Coherent, Valid;
    match op
    case ChangeUsers(activeUsers) => UsersCoherent(Settled(s), s.db, activeUsers);
    case Expire(key) => LossCoherent(s, {key});
    case RunCommand(i) =>
      if i < |s.pending| {
        RunForemost(s.cache, s.pending, i);
      }
  }

  /** One orderly step keeps the settled cache coherent if and only if it is not a
      hydration that fetched a deleted row. */
  lemma StepCoherentIff(s: State, op: Op)
    requires Valid(s.db) && Coherent(Settled(s), s.db) && Orderly(s, op)
    ensures Coherent(Settled(Next(s, op)), Next(s, op).db) <==> FetchesLive(s, op)
  {
    hide Coherent, Settled, Valid, Next;
    if IsWrite(op) {
      WriteCoherent(s, op);
    } else if op.FetchByIDs? {
      FetchStepCoherentIff(s, op.ids);
    } else if op.ChangeUsers? || op.Expire? || op.RunCommand? {
      OtherStepCoherent(s, op);
    } else {
      ReadStepCoherent(s, op);
    }
  }

  ghost predicate CoherentThroughout(s: State, ops: seq<Op>) {
    forall i :: 0 <= i <= |ops| ==> Coherent(Settled(Run(s, ops[..i])), Run(s, ops[..i]).db)
  }

  ghost predicate FetchesLiveThroughout(s: State, ops: seq<Op>) {
    forall i :: 0 <= i < |ops| ==> FetchesLive(Run(s, ops[..i]), ops[i])
  }

  lemma {:induction false} RunValid(s: State, ops: seq<Op>)
    requires Valid(s.db)
    ensures Valid(Run(s, ops).db)
  {
    if ops != [] {
      RunValid(s, ops[..|ops| - 1]);
      NextValid(Run(s, ops[..|ops| - 1]), ops[|ops| - 1]);
    }
  }

  lemma RunStep(s: State, ops: seq<Op>, i: nat)
    requires i < |ops|
    ensures Run(s, ops[..i + 1]) == Next(Run(s, ops[..i]), ops[i])
  {
    assert ops[..i + 1][..i] == ops[..i];
  }

  lemma {:induction false} CoherentUpTo(s: State, ops: seq<Op>, i: nat)
    requires Valid(s.db) && Coherent(Settled(s), s.db) && OrderlyRun(s, ops) && FetchesLiveThroughout(s, ops)
    requires i <= |ops|
    ensures Coherent(Settled(Run(s, ops[..i])), Run(s, ops[..i]).db)
  {
    if i == 0 {
      assert ops[..0] == [];
    } else {
      CoherentUpTo(s, ops, i - 1);
      RunValid(s, ops[..i - 1]);
      RunStep(s, ops, i - 1);
      StepCoherentIff(Run(s, ops[..i - 1]), ops[i - 1]);
    }
  }

  /** Cache coherence over every orderly run, exactly: the cache the pending commands lead
      to agrees with the table in every state of the run if and only if no hydration in
      the run fetched a row deleted after its page of ids was read. */
  lemma CoherenceOverRuns(s: State, ops: seq<Op>)
    requires Valid(s.db) && Coherent(Settled(s), s.db) && OrderlyRun(s, ops)
    ensures CoherentThroughout(s, ops) <==> FetchesLiveThroughout(s, ops)
  {
    if FetchesLiveThroughout(s, ops) {
      forall i | 0 <= i <= |ops|
        ensures Coherent(Settled(Run(s, ops[..i])), Run(s, ops[..i]).db)
      {
        CoherentUpTo(s, ops, i);
      }
    }
    if CoherentThroughout(s, ops) {
      forall i | 0 <= i < |ops|
        ensures FetchesLive(Run(s, ops[..i]), ops[i])
      {
        RunValid(s, ops[..i]);
        RunStep(s, ops, i);
        StepCoherentIff(Run(s, ops[..i]), ops[i]);
      }
    }
  }

  /* ---------- what a coherent cache answers ---------- */

  lemma UntouchedSettled(s: State, key: Key)
    requires Untouched(s.pending, key)
    ensures Look(Settled(s), key) == Look(s.cache, key)
  {
    DrainAt(s.cache, s.pending, key);
    LastEffectUntouched(s.pending, key);
  }

  /** A read by slug gives the row its SQL would give, as soon as no pending command
      touches the keys the lookup visits. */
  lemma ReadBySlugExact(s: State, userID: Uuid, slug: string)
    requires Valid(s.db) && Coherent(Settled(s), s.db)
    requires Untouched(s.pending, SlugKey(userID, slug))
    requires forall id :: Look(s.cache, SlugKey(userID, slug)) == Some(Text(id)) ==> Untouched(s.pending, EntityKey(id))
    ensures ReadBySlug(s.cache, s.db, userID, slug).answer == GetAlbumBySlug(s.db, userID, slug)
  {
    var key := SlugKey(userID, slug);
    var cached := CachedByMapper(s.cache, key);
    if cached.Some? {
      var id := s.cache[key].id;
      UntouchedSettled(s, key);
      UntouchedSettled(s, EntityKey(id));
      assert Agrees(key, Settled(s)[key], s.db);
      assert Agrees(EntityKey(id), Settled(s)[EntityKey(id)], s.db);
      SlugLookupUnique(s.db, id, userID, slug);
    }
  }

  lemma ReadByIDExact(s: State, userID: Uuid, albumID: Uuid)
    requires Valid(s.db) && Coherent(Settled(s), s.db)
    requires Untouched(s.pending, EntityKey(albumID))
    ensures ReadByID(s.cache, s.db, userID, albumID).answer == GetAlbum(s.db, albumID, userID)
  {
    if CachedByID(s.cache, albumID).Some? {
      UntouchedSettled(s, EntityKey(albumID));
      assert Agrees(EntityKey(albumID), Settled(s)[EntityKey(albumID)], s.db);
    }
  }

  ghost predicate EntitiesCoherent(c: Cache, db: Db) {
    forall id :: EntityKey(id) in c ==> Agrees(EntityKey(id), c[EntityKey(id)], db)
  }

  /** A read by direct token is exact whatever the token mappers hold. */
  lemma ReadByDirectTokenExact(c: Cache, db: Db, token: Uuid)
    requires Valid(db) && EntitiesCoherent(c, db)
    ensures ReadByDirectToken(c, db, token).answer == GetAlbumByDirectToken(db, token)
  {
    var cached := CachedByMapper(c, TokenKey(token));
    if cached.Some? && cached.value.isActive && cached.value.directToken == Some(token) {
      var id := c[TokenKey(token)].id;
      assert Agrees(EntityKey(id), c[EntityKey(id)], db);
      TokenLookupUnique(db, id, token);
    }
  }

  lemma SettledNow(s: State)
    requires s.pending == []
    ensures Settled(s) == s.cache
  {
  }

  /** At quiescence all three reads are exact. */
  lemma ReadsExactAtQuiescence(s: State, ops: seq<Op>, userID: Uuid, slug: string, albumID: Uuid, token: Uuid)
    requires Valid(s.db) && Coherent(Settled(s), s.db)
    requires OrderlyRun(s, ops) && FetchesLiveThroughout(s, ops)
    requires Run(s, ops).pending == []
    ensures var t := Run(s, ops);
            && ReadBySlug(t.cache, t.db, userID, slug).answer == GetAlbumBySlug(t.db, userID, slug)
            && ReadByID(t.cache, t.db, userID, albumID).answer == GetAlbum(t.db, albumID, userID)
            && ReadByDirectToken(t.cache, t.db, token).answer == GetAlbumByDirectToken(t.db, token)
  {
    CoherentUpTo(s, ops, |ops|);
    assert ops[..|ops|] == ops;
    RunValid(s, ops);
    var t := Run(s, ops);
    SettledNow(t);
    ReadBySlugExact(t, userID, slug);
    ReadByIDExact(t, userID, albumID);
    ReadByDirectTokenExact(t.cache, t.db, token);
  }

  lemma RunSnoc(s: State, ops: seq<Op>, op: Op)
    ensures Run(s, ops + [op]) == Next(Run(s, ops), op)
  {
    var all := ops + [op];
    assert all[..|all| - 1] == ops;
  }
}
