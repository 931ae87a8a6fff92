/** Safety that needs no order at all: commands run in any order or never, keys expire,
    and concurrent misses share one database read through singleflight. */
module AlbumSharing {
  import opened Wrappers
  import opened Uuids
  import opened AlbumTable
  import opened AlbumCache
  import opened AlbumRuns

  /** The singleflight keys. The one for a read by id does not name the user. */
  datatype Flight =
    | SlugFlight(userID: Uuid, slug: string)
    | IDFlight(albumID: Uuid)
    | TokenFlight(token: Uuid)

  /** `history` is every version of every row the table has held; `flights` are the
      results that callers with the same flight key may still be handed. */
  datatype World = World(s: State, history: set<Album>, flights: map<Flight, Result<Album, SqlError>>)

  /** An operation, the leader of a flight reading the table, or a flight landing. */
  datatype Event = Act(op: Op) | Lead(flight: Flight, leader: Uuid) | Land(landed: Flight)

  function Rows(db: Db): set<Album> {
    set id | id in db.albums :: db.albums[id]
  }

  ghost function FlightRead(db: Db, flight: Flight, leader: Uuid): Result<Album, SqlError> {
    match flight
    case SlugFlight(userID, slug) => GetAlbumBySlug(db, userID, slug)
    case IDFlight(albumID) => GetAlbum(db, albumID, leader)
    case TokenFlight(token) => GetAlbumByDirectToken(db, token)
  }

  /** New primary keys are never reused. */
  predicate FreshIn(w: World, e: Event) {
    e.Act? && e.op.Create? ==> forall a :: a in w.history ==> a.id != e.op.id
  }

  ghost function Happen(w: World, e: Event): World {
    match e
    case Act(op) =>
      var s' := Next(w.s, op);
      w.(s := s', history := w.history + Rows(s'.db))
    case Lead(flight, leader) =>
      if flight in w.flights then w else
        var r := FlightRead(w.s.db, flight, leader);
        var fill := if r.Success? && Live(r.value) then SetAlbum(r.value) else [];
        w.(s := Enqueue(w.s, fill), flights := w.flights[flight := r])
    case Land(landed) => w.(flights := w.flights - {landed})
  }

  ghost function Happenings(w: World, es: seq<Event>): World {
    if es == [] then w else Happen(Happenings(w, es[..|es| - 1]), es[|es| - 1])
  }

  ghost predicate FreshRun(w: World, es: seq<Event>) {
    forall i :: 0 <= i < |es| ==> FreshIn(Happenings(w, es[..i]), es[i])
  }

  /** The entry is one that caching some version of an album writes. */
  ghost predicate Known(key: Key, v: Value, history: set<Album>) {
    exists a :: a in history && Set(key, v) in SetAlbum(a)
  }

  ghost predicate KnownCommands(cmds: seq<Command>, history: set<Album>) {
    forall i :: 0 <= i < |cmds| && cmds[i].Set? ==> Known(cmds[i].key, cmds[i].value, history)
  }

  predicate MatchesFlight(flight: Flight, a: Album) {
    match flight
    case SlugFlight(userID, slug) => a.userID == userID && a.slug == slug
    case IDFlight(albumID) => a.id == albumID
    case TokenFlight(token) => a.directToken == Some(token) && a.isActive
  }

  ghost predicate OneOwner(history: set<Album>) {
    forall a, b :: a in history && b in history && a.id == b.id ==> a.userID == b.userID
  }

  ghost predicate Inv(w: World) {
    && Valid(w.s.db) && Rows(w.s.db) <= w.history && OneOwner(w.history)
    && (forall key :: key in w.s.cache ==> Known(key, w.s.cache[key], w.history))
    && KnownCommands(w.s.pending, w.history)
    && (forall f :: f in w.flights && w.flights[f].Success? ==>
         w.flights[f].value in w.history && MatchesFlight(f, w.flights[f].value))
  }

  lemma SetAlbumKnown(a: Album, history: set<Album>)
    requires a in history
    ensures KnownCommands(SetAlbum(a), history)
  {
    var cmds := SetAlbum(a);
    forall i | 0 <= i < |cmds|
      ensures Known(cmds[i].key, cmds[i].value, history)
    {
      assert Set(cmds[i].key, cmds[i].value) == cmds[i] && cmds[i] in SetAlbum(a);
    }
  }

  lemma KnownConcat(a: seq<Command>, b: seq<Command>, history: set<Album>)
    requires KnownCommands(a, history) && KnownCommands(b, history)
    ensures KnownCommands(a + b, history)
  {
  }

  lemma KnownGrows(cmds: seq<Command>, history: set<Album>, more: set<Album>)
    requires KnownCommands(cmds, history) && history <= more
    ensures KnownCommands(cmds, more)
  {
    forall i | 0 <= i < |cmds| && cmds[i].Set?
      ensures Known(cmds[i].key, cmds[i].value, more)
    {
      assert Known(cmds[i].key, cmds[i].value, history);
    }
  }

  lemma {:induction false} FillAllKnown(db: Db, ids: seq<Uuid>, history: set<Album>)
    requires Rows(db) <= history
    ensures KnownCommands(FillAll(db, ids), history)
  {
    if ids != [] {
      var init, last := ids[..|ids| - 1], ids[|ids| - 1];
      FillAllKnown(db, init, history);
      if last in db.albums {
        assert db.albums[last] in Rows(db);
        SetAlbumKnown(db.albums[last], history);
        KnownConcat(FillAll(db, init), SetAlbum(db.albums[last]), history);
      }
    }
  }

  lemma ReadStepKnown(s: State, op: Op, history: set<Album>)
    requires Valid(s.db) && KnownCommands(s.pending, history) && Rows(s.db) <= history
    requires op.GetBySlug? || op.GetByID? || op.GetByDirectToken?
    ensures KnownCommands(Next(s, op).pending, history)
  {
    hide KnownCommands;
    match op
    case GetBySlug(userID, slug) => ReadKnown(s, ReadBySlug(s.cache, s.db, userID, slug), history);
    case GetByID(userID, albumID) => ReadKnown(s, ReadByID(s.cache, s.db, userID, albumID), history);
    case GetByDirectToken(token) => ReadKnown(s, ReadByDirectToken(s.cache, s.db, token), history);
  }

  lemma FetchStepKnown(s: State, ids: seq<Uuid>, history: set<Album>)
    requires KnownCommands(s.pending, history) && Rows(s.db) <= history
    ensures KnownCommands(Next(s, FetchByIDs(ids)).pending, history)
  {
    hide KnownCommands, Rows;
    FillAllKnown(s.db, ids, history);
    KnownConcat(s.pending, FillAll(s.db, ids), history);
  }

  /** A step that neither reads nor writes the table only takes commands away. */
  lemma RestKnown(s: State, op: Op, history: set<Album>)
    requires KnownCommands(s.pending, history)
    requires op.ChangeUsers? || op.Expire? || op.RunCommand? || op.DropCommand?
    ensures KnownCommands(Next(s, op).pending, history)
  {
    hide Known, Exec;
  }

  /** What a step sends to the cache comes from rows of the table. */
  lemma NextKnown(s: State, op: Op, history: set<Album>)
    requires Valid(s.db) && KnownCommands(s.pending, history)
    requires Rows(Next(s, op).db) <= history && Rows(s.db) <= history
    ensures KnownCommands(Next(s, op).pending, history)
  {
    hide Next, KnownCommands, Rows, Valid;
    if IsWrite(op) {
      NextIsAfterWrite(s, op);
      TaskKnown(s, op, history);
    } else if op.FetchByIDs? {
      FetchStepKnown(s, op.ids, history);
    } else if op.GetBySlug? || op.GetByID? || op.GetByDirectToken? {
      ReadStepKnown(s, op, history);
    } else {
      RestKnown(s, op, history);
    }
  }

  lemma TaskKnown(s: State, op: Op, history: set<Album>)
    requires Valid(s.db) && IsWrite(op) && KnownCommands(s.pending, history)
    requires Rows(AfterWrite(s, op).db) <= history
    ensures KnownCommands(AfterWrite(s, op).pending, history)
  {
    if Write(s.db, op).Success? {
      var w := Write(s.db, op).value;
      WriteShape(s.db, op);
      hide Write, KnownCommands, Valid, Put;
      assert !op.Purge? ==> w.db.albums[w.album.id] == w.album && w.album in Rows(w.db);
      TaskOfKnown(op, w, history);
      KnownConcat(s.pending, Task(op, w), history);
    }
  }

  lemma TaskOfKnown(op: Op, w: Written, history: set<Album>)
    requires IsWrite(op) && (!op.Purge? ==> w.album in history)
    ensures KnownCommands(Task(op, w), history)
  {
    hide Known;
    if !op.Purge? {
      SetAlbumKnown(w.album, history);
    }
  }

  lemma ReadKnown(s: State, read: Read, history: set<Album>)
    requires KnownCommands(s.pending, history)
    requires read.fill == [] || (read.answer.Success? && read.answer.value in history
                                 && read.fill == SetAlbum(read.answer.value))
    ensures KnownCommands(s.pending + read.fill, history)
  {
    if read.fill != [] {
      SetAlbumKnown(read.answer.value, history);
    }
  }

  /** No step moves a stored row to another user. */
  lemma NextKeepsOwners(s: State, op: Op, id: Uuid)
    requires Valid(s.db) && id in Next(s, op).db.albums
    ensures Next(s, op).db.albums[id].id == id
    ensures if id in s.db.albums then Next(s, op).db.albums[id].userID == s.db.albums[id].userID
            else op.Create? && op.id == id
  {
    NextValid(s, op);
    NextAlbums(s, op);
    if IsWrite(op) && Write(s.db, op).Success? {
      WriteShape(s.db, op);
    }
    hide Next, Write;
  }

  /** A row version that a step brings in is a new album or belongs to the user the row
      belonged to. */
  lemma NewVersion(s: State, op: Op, a: Album)
    requires Valid(s.db) && a in Rows(Next(s, op).db) && a !in Rows(s.db)
    ensures if a.id in s.db.albums then s.db.albums[a.id] in Rows(s.db) && s.db.albums[a.id].id == a.id
                                        && s.db.albums[a.id].userID == a.userID
            else op.Create? && op.id == a.id
    ensures forall b :: b in Rows(Next(s, op).db) && b.id == a.id ==> b == a
  {
    NextValid(s, op);
    NextKeepsOwners(s, op, a.id);
    assert a.id in s.db.albums ==> s.db.albums[a.id] in Rows(s.db);
  }

  lemma HistoryStep(w: World, op: Op)
    requires Inv(w) && FreshIn(w, Act(op))
    ensures OneOwner(w.history + Rows(Next(w.s, op).db))
  {
    var added := Rows(Next(w.s, op).db);
    forall a, b | a in w.history + added && b in w.history + added && a.id == b.id
      ensures a.userID == b.userID
    {
      if a !in w.history {
        NewVersion(w.s, op, a);
      }
      if b !in w.history {
        NewVersion(w.s, op, b);
      }
    }
  }

  predicate Executes(s: State, op: Op) {
    op.RunCommand? && op.i < |s.pending|
  }

  /** The keys a step takes out of the cache, if it does not execute a command. */
  function LostKeys(s: State, op: Op): set<Key> {
    if op.Expire? then {op.key}
    else if IsWrite(op) && Write(s.db, op).Success? then UnlinkedNow(op, Write(s.db, op).value)
    else {}
  }

  lemma WriteCache(s: State, op: Op)
    requires IsWrite(op)
    ensures Next(s, op).cache == s.cache - LostKeys(s, op)
  {
    NextIsAfterWrite(s, op);
    hide Next, Write, UnlinkedNow, Task;
    assert s.cache - {} == s.cache;
  }

  lemma OtherCache(s: State, op: Op)
    requires !IsWrite(op) && !Executes(s, op)
    ensures Next(s, op).cache == if op.Expire? then s.cache - {op.key} else s.cache
  {
    hide Write, UnlinkedNow, ReadBySlug, ReadByID, ReadByDirectToken, FillAll;
  }

  /** No step but the execution of a command puts anything into the cache. */
  lemma NextCache(s: State, op: Op)
    requires !Executes(s, op)
    ensures Next(s, op).cache == s.cache - LostKeys(s, op)
  {
    hide Next, Write, UnlinkedNow, Task;
    if IsWrite(op) {
      WriteCache(s, op);
    } else {
      OtherCache(s, op);
      assert s.cache - {} == s.cache;
    }
  }

  lemma ExecKnown(c: Cache, cmd: Command, history: set<Album>)
    requires forall k :: k in c ==> Known(k, c[k], history)
    requires cmd.Set? ==> Known(cmd.key, cmd.value, history)
    ensures forall k :: k in Exec(c, cmd) ==> Known(k, Exec(c, cmd)[k], history)
  {
    hide Known;
  }

  lemma ActKeepsInv(w: World, op: Op)
    requires Inv(w) && FreshIn(w, Act(op))
    ensures Inv(Happen(w, Act(op)))
  {
    var s' := Next(w.s, op);
    var history := w.history + Rows(s'.db);
    NextValid(w.s, op);
    HistoryStep(w, op);
    KnownGrows(w.s.pending, w.history, history);
    NextKnown(w.s, op, history);
    forall k | k in w.s.cache
      ensures Known(k, w.s.cache[k], history)
    {
      assert Known(k, w.s.cache[k], w.history);
    }
    hide Known, Next, KnownCommands;
    CacheStaysKnown(w.s, op, history);
  }

  lemma CacheStaysKnown(s: State, op: Op, history: set<Album>)
    requires forall k :: k in s.cache ==> Known(k, s.cache[k], history)
    requires KnownCommands(s.pending, history)
    ensures forall k :: k in Next(s, op).cache ==> Known(k, Next(s, op).cache[k], history)
  {
    hide Known;
    if Executes(s, op) {
      assert Next(s, op).cache == Exec(s.cache, s.pending[op.i]);
      hide Next;
      ExecKnown(s.cache, s.pending[op.i], history);
    } else {
      hide Next, LostKeys;
      NextCache(s, op);
      ExecKnown(s.cache, Unlink(LostKeys(s, op)), history);
    }
  }

  lemma LeadKeepsInv(w: World, flight: Flight, leader: Uuid)
    requires Inv(w)
    ensures Inv(Happen(w, Lead(flight, leader)))
  {
    var r := FlightRead(w.s.db, flight, leader);
    if flight !in w.flights && r.Success? {
      assert r.value in Rows(w.s.db);
      SetAlbumKnown(r.value, w.history);
      KnownConcat(w.s.pending, SetAlbum(r.value), w.history);
    }
  }

  lemma {:induction false} InvThroughout(w: World, es: seq<Event>)
    requires Inv(w) && FreshRun(w, es)
    ensures Inv(Happenings(w, es))
  {
    if es != [] {
      var init := es[..|es| - 1];
      forall i | 0 <= i < |init|
        ensures FreshIn(Happenings(w, init[..i]), init[i])
      {
        assert init[..i] == es[..i];
      }
      InvThroughout(w, init);
      match es[|es| - 1]
      case Act(op) => ActKeepsInv(Happenings(w, init), op);
      case Lead(flight, leader) => LeadKeepsInv(Happenings(w, init), flight, leader);
      case Land(_) =>
    }
  }

  /** Any valid table with an empty cache is a world to start from. */
  function Fresh(db: Db): World {
    World(State(db, map[], []), Rows(db), map[])
  }

  lemma StartInv(db: Db)
    requires Valid(db)
    ensures Inv(Fresh(db))
  {
    forall a, b | a in Rows(db) && b in Rows(db) && a.id == b.id
      ensures a == b
    {
    }
  }

  /** Versions are never forgotten. */
  lemma {:induction false} HistoryGrows(w: World, es: seq<Event>)
    ensures w.history <= Happenings(w, es).history
  {
    hide Happen;
    if es != [] {
      HistoryGrows(w, es[..|es| - 1]);
      HistoryKept(Happenings(w, es[..|es| - 1]), es[|es| - 1]);
    }
  }

  lemma HistoryKept(w: World, e: Event)
    ensures w.history <= Happen(w, e).history
  {
  }

  /* ---------- what callers can be handed ---------- */

  /** A read by slug answers from the cache or with the result of a shared flight. */
  predicate AnswersBySlug(w: World, userID: Uuid, slug: string, a: Album) {
    || CachedByMapper(w.s.cache, SlugKey(userID, slug)) == Some(a)
    || (SlugFlight(userID, slug) in w.flights && w.flights[SlugFlight(userID, slug)] == Success(a))
  }

  predicate AnswersByID(w: World, userID: Uuid, albumID: Uuid, a: Album) {
    || (CachedByID(w.s.cache, albumID) == Some(a) && a.userID == userID)
    || (IDFlight(albumID) in w.flights && w.flights[IDFlight(albumID)] == Success(a))
  }

  predicate AnswersByToken(w: World, token: Uuid, a: Album) {
    || (CachedByMapper(w.s.cache, TokenKey(token)) == Some(a) && a.isActive && a.directToken == Some(token))
    || (TokenFlight(token) in w.flights && w.flights[TokenFlight(token)] == Success(a))
  }

  /** The service's ownership check on whatever the repository hands back. */
  function GetOwned(r: Result<Album, SqlError>, userID: Uuid): Result<Album, SqlError> {
    if r.Success? && r.value.userID != userID then Failure(NoRows) else r
  }

  /** Under any schedule, every album a caller is handed is a version the table held of
      that album; by slug it belongs to the user asked for, by token it carries the token
      and is active, and by id the owner's check passes it exactly for the user to whom
      every version of the album that the table held belongs. */
  lemma SnapshotSafety(
    w: World, es: seq<Event>, userID: Uuid, slug: string, albumID: Uuid, token: Uuid, a: Album, b: Album)
    requires Inv(w) && FreshRun(w, es)
    ensures var t := Happenings(w, es);
            && (AnswersBySlug(t, userID, slug, a) ==> a in t.history && a.userID == userID)
            && (AnswersByID(t, userID, albumID, a) ==> a in t.history && a.id == albumID)
            && (AnswersByToken(t, token, a) ==> a in t.history && a.directToken == Some(token) && a.isActive)
            && (AnswersByID(t, userID, albumID, a) && b in t.history && b.id == albumID ==>
                 b.userID == a.userID && (GetOwned(Success(a), userID).Success? <==> b.userID == userID))
  {
    InvThroughout(w, es);
    hide Happenings, FreshRun, Inv, AnswersBySlug, AnswersByID, AnswersByToken;
    var t := Happenings(w, es);
    SlugAnswerSafe(t, userID, slug, a);
    IDAnswerSafe(t, userID, albumID, a, b);
    TokenAnswerSafe(t, token, a);
  }

  /** So it is in every world the program can get into. */
  lemma SnapshotSafetyEver(
    db: Db, es: seq<Event>, userID: Uuid, slug: string, albumID: Uuid, token: Uuid, a: Album, b: Album)
    requires Valid(db) && FreshRun(Fresh(db), es)
    ensures var t := Happenings(Fresh(db), es);
            && (AnswersBySlug(t, userID, slug, a) ==> a in t.history && a.userID == userID)
            && (AnswersByID(t, userID, albumID, a) ==> a in t.history && a.id == albumID)
            && (AnswersByToken(t, token, a) ==> a in t.history && a.directToken == Some(token) && a.isActive)
            && (AnswersByID(t, userID, albumID, a) && b in t.history && b.id == albumID ==>
                 b.userID == a.userID && (GetOwned(Success(a), userID).Success? <==> b.userID == userID))
  {
    StartInv(db);
    hide Happenings, FreshRun, Inv, AnswersBySlug, AnswersByID, AnswersByToken;
    SnapshotSafety(Fresh(db), es, userID, slug, albumID, token, a, b);
  }

  lemma SlugAnswerSafe(w: World, userID: Uuid, slug: string, a: Album)
    requires Inv(w)
    ensures AnswersBySlug(w, userID, slug, a) ==> a in w.history && a.userID == userID
  {
    var c, key := w.s.cache, SlugKey(userID, slug);
    if CachedByMapper(c, key) == Some(a) {
      CachedKnown(w, c[key].id, a);
      assert Known(key, c[key], w.history);
      var b :| b in w.history && Set(key, c[key]) in SetAlbum(b);
      assert b.userID == userID && b.id == a.id;
    }
  }

  lemma IDAnswerSafe(w: World, userID: Uuid, albumID: Uuid, a: Album, b: Album)
    requires Inv(w)
    ensures AnswersByID(w, userID, albumID, a) ==> a in w.history && a.id == albumID
    ensures AnswersByID(w, userID, albumID, a) && b in w.history && b.id == albumID ==> b.userID == a.userID
  {
    if CachedByID(w.s.cache, albumID) == Some(a) {
      CachedKnown(w, albumID, a);
    }
  }

  lemma TokenAnswerSafe(w: World, token: Uuid, a: Album)
    requires Inv(w)
    ensures AnswersByToken(w, token, a) ==> a in w.history && a.directToken == Some(token) && a.isActive
  {
    if CachedByMapper(w.s.cache, TokenKey(token)) == Some(a) {
      CachedKnown(w, w.s.cache[TokenKey(token)].id, a);
    }
  }

  lemma CachedKnown(w: World, id: Uuid, a: Album)
    requires Inv(w) && CachedByID(w.s.cache, id) == Some(a)
    ensures a in w.history && a.id == id
  {
    assert Known(EntityKey(id), w.s.cache[EntityKey(id)], w.history);
  }

  /** A flight hands every caller who joins it, however much later and whatever happens in
      between, what its leader read when it took off. */
  lemma {:induction false} FlightKeepsAnswer(w: World, es: seq<Event>, flight: Flight, leader: Uuid)
    requires flight !in w.flights && Land(flight) !in es
    ensures var t := Happenings(Happen(w, Lead(flight, leader)), es);
            flight in t.flights && t.flights[flight] == FlightRead(w.s.db, flight, leader)
  {
    if es != [] {
      assert es[|es| - 1] != Land(flight);
      FlightKeepsAnswer(w, es[..|es| - 1], flight, leader);
    }
  }

  /** The price of a flight key without the user: over every run, a caller who joins a
      flight by id gets the answer that a read of its own would have got when the flight
      took off, if and only if it led the flight or did not own the album then. An owner
      who joins a stranger's flight is told that the album is missing. */
  lemma {:induction false} SharedReadExactIff(w: World, es: seq<Event>, albumID: Uuid, leader: Uuid, caller: Uuid)
    requires IDFlight(albumID) !in w.flights && Land(IDFlight(albumID)) !in es
    ensures var t := Happenings(Happen(w, Lead(IDFlight(albumID), leader)), es);
            var db := w.s.db;
            && IDFlight(albumID) in t.flights
            && var joined := GetOwned(t.flights[IDFlight(albumID)], caller);
            && (joined == GetOwned(GetAlbum(db, albumID, caller), caller)
                <==> leader == caller || albumID !in db.albums || db.albums[albumID].userID != caller)
            && (joined.Failure? || joined == GetOwned(GetAlbum(db, albumID, caller), caller))
  {
    FlightKeepsAnswer(w, es, IDFlight(albumID), leader);
  }
}
