/** Concrete runs on which coherence, or sharing a read, fails. */
module AlbumCounterexamples {
  import opened Wrappers
  import opened Uuids
  import opened AlbumTable
  import opened AlbumCache
  import opened AlbumRuns
  import Pagination
  import Access = AlbumAccess
  import Lists = AlbumLists
  import Repo = AlbumRepository
  import Sharing = AlbumSharing

  const OWNER: Uuid := 7
  const SHOWN: Album := Album(1, OWNER, "trip", None, true, "public", [], 0, "", 0, None)
  const HIDDEN: Album := SHOWN.(isActive := false)
  const GONE: Album := SHOWN.(deletedAt := Some(0))
  const START: State := State(Db(map[1 := SHOWN], {OWNER}), map[], [])
  const HIDDEN_DB: Db := Db(map[1 := HIDDEN], {OWNER})
  const GONE_DB: Db := Db(map[1 := GONE], {OWNER})

  lemma StartCoherent()
    ensures Valid(START.db) && Coherent(Settled(START), START.db)
  {
  }

  lemma ToggleTwice()
    ensures Run(START, [ToggleActive(OWNER, 1, true, 0), ToggleActive(OWNER, 1, false, 0)])
         == State(HIDDEN_DB, map[], SetAlbum(SHOWN) + SetAlbum(HIDDEN))
  {
    var turnOn, turnOff := ToggleActive(OWNER, 1, true, 0), ToggleActive(OWNER, 1, false, 0);
    RunSnoc(START, [], turnOn);
    RunSnoc(START, [] + [turnOn], turnOff);
    assert Run(START, [] + [turnOn]) == State(START.db, map[], SetAlbum(SHOWN));
    assert [] + [turnOn] + [turnOff] == [turnOn, turnOff];
  }

  lemma NewestFirst()
    ensures var s := State(HIDDEN_DB, map[], SetAlbum(SHOWN) + SetAlbum(HIDDEN));
            var t := Next(Next(Next(Next(s, RunCommand(2)), RunCommand(0)), RunCommand(0)), RunCommand(0));
            t.db == HIDDEN_DB && t.pending == [] && Look(t.cache, EntityKey(1)) == Some(Json(SHOWN))
            && Look(t.cache, SlugKey(OWNER, "trip")) == Some(Text(1))
  {
    var p := SetAlbum(SHOWN) + SetAlbum(HIDDEN);
    var s := State(HIDDEN_DB, map[], p);
    var s1 := Next(s, RunCommand(2));
    assert s1.pending == [p[0], p[1], p[3]];
    var s2 := Next(s1, RunCommand(0));
    assert s2.pending == [p[1], p[3]];
    var s3 := Next(s2, RunCommand(0));
    assert s3.pending == [p[3]];
  }

  /** Goroutines carry no order of their own: when the task of a deactivation runs before
      the task of the write it follows, the cache keeps serving the album as active with
      nothing left pending. */
  lemma UnorderedTasksBreakCoherence()
    ensures var issued := Run(START, [ToggleActive(OWNER, 1, true, 0), ToggleActive(OWNER, 1, false, 0)]);
            var s := Next(Next(Next(Next(issued, RunCommand(2)), RunCommand(0)), RunCommand(0)), RunCommand(0));
            && Valid(START.db) && Coherent(Settled(START), START.db)
            && s.pending == [] && !Coherent(s.cache, s.db)
            && ReadBySlug(s.cache, s.db, OWNER, "trip").answer == Success(SHOWN)
            && GetAlbumBySlug(s.db, OWNER, "trip") == Success(HIDDEN)
  {
    StartCoherent();
    ToggleTwice();
    NewestFirst();
    var issued := State(HIDDEN_DB, map[], SetAlbum(SHOWN) + SetAlbum(HIDDEN));
    var s := Next(Next(Next(Next(issued, RunCommand(2)), RunCommand(0)), RunCommand(0)), RunCommand(0));
    assert !Agrees(EntityKey(1), s.cache[EntityKey(1)], s.db);
    SlugLookupUnique(HIDDEN_DB, 1, OWNER, "trip");
  }

  lemma Deleted()
    ensures Next(START, Delete(OWNER, 1, 0)) == State(GONE_DB, map[], InvalidateAlbum(GONE))
  {
    assert START.db.albums[1 := GONE] == map[1 := GONE];
  }

  lemma InvalidationRuns()
    ensures Next(State(GONE_DB, map[], InvalidateAlbum(GONE)), RunCommand(0)) == State(GONE_DB, map[], [])
  {
  }

  lemma DeletedAndSettled()
    ensures Run(START, [Delete(OWNER, 1, 0), RunCommand(0)]) == State(GONE_DB, map[], [])
  {
    Deleted();
    InvalidationRuns();
    hide Next;
    RunSnoc(START, [], Delete(OWNER, 1, 0));
    RunSnoc(START, [] + [Delete(OWNER, 1, 0)], RunCommand(0));
    assert [] + [Delete(OWNER, 1, 0)] + [RunCommand(0)] == [Delete(OWNER, 1, 0), RunCommand(0)];
  }

  lemma LateFill(deleted: State)
    requires deleted == State(GONE_DB, map[], [])
    ensures var s := Next(Next(Next(deleted, FetchByIDs([1])), RunCommand(0)), RunCommand(0));
            s.db == GONE_DB && s.pending == []
            && Look(s.cache, EntityKey(1)) == Some(Json(GONE)) && Look(s.cache, SlugKey(OWNER, "trip")) == Some(Text(1))
  {
    assert [1][..0] == [] && FillAll(GONE_DB, [1]) == SetAlbum(GONE);
    var s1 := Next(deleted, FetchByIDs([1]));
    assert s1.pending == SetAlbum(GONE);
    var s2 := Next(s1, RunCommand(0));
    assert s2.pending == [Set(SlugKey(OWNER, "trip"), Text(1))];
  }

  /** The page of ids a guest is given of the owner's list. */
  ghost function GuestPage(db: Db): seq<Pagination.PageKey> {
    Lists.PageRows(db, OWNER, NIL, "", None, 10)
  }

  lemma GuestPageOfStart()
    ensures GuestPage(START.db) == [Access.KeyOf(SHOWN)]
  {
    var k := Access.KeyOf(SHOWN);
    var visible := Access.ListedKeys(START.db, OWNER, NIL, "");
    assert visible == {k} by {
      assert map[1 := SHOWN][1] == SHOWN;
    }
    assert Pagination.Rest(visible, None) == Pagination.Elements([k]);
    Pagination.SortedUnique([k]);
  }

  /** A page of ids read before a deletion and hydrated after it puts the deleted row back
      into the cache even in commit order, and the read by slug then serves it. */
  lemma LateHydrationServesDeletedAlbum()
    ensures var deleted := Run(START, [Delete(OWNER, 1, 0), RunCommand(0)]);
            var s := Next(Next(Next(deleted, FetchByIDs([1])), RunCommand(0)), RunCommand(0));
            && Valid(START.db) && Coherent(Settled(START), START.db)
            && GuestPage(START.db) == [Access.KeyOf(SHOWN)] && Access.KeyOf(SHOWN).id == 1
            && Repo.Misses(START.cache, 1) && Repo.Misses(deleted.cache, 1)
            && deleted == State(GONE_DB, map[], []) && s.pending == []
            && GetAlbumBySlug(s.db, OWNER, "trip") == Failure(NoRows)
            && ReadBySlug(s.cache, s.db, OWNER, "trip").answer == Success(GONE)
  {
    StartCoherent();
    GuestPageOfStart();
    DeletedAndSettled();
    LateFill(State(GONE_DB, map[], []));
    hide Run, Next;
  }

  const PRIVATE_FIELDS: AlbumFields := AlbumFields("trip", "private", [], 0, true, "")
  const PRIVATE: Album := SHOWN.(access := "private")

  lemma MadePrivate()
    ensures Run(START, [Update(OWNER, 1, PRIVATE_FIELDS, 0)])
         == State(Db(map[1 := PRIVATE], {OWNER}), map[], SetAlbum(PRIVATE))
  {
    RunSnoc(START, [], Update(OWNER, 1, PRIVATE_FIELDS, 0));
    assert [] + [Update(OWNER, 1, PRIVATE_FIELDS, 0)] == [Update(OWNER, 1, PRIVATE_FIELDS, 0)];
    assert START.db.albums[1 := PRIVATE] == map[1 := PRIVATE];
    assert Write(START.db, Update(OWNER, 1, PRIVATE_FIELDS, 0))
        == Success(Written(Db(map[1 := PRIVATE], {OWNER}), PRIVATE, SHOWN));
  }

  /** The ids of a page are read while an album is public, the owner makes it private, and
      the missing rows are read, by id alone: the guest's page shows the private version,
      which the single get refuses. */
  lemma LateHydrationShowsPrivateAlbum()
    ensures var s := Run(START, [Update(OWNER, 1, PRIVATE_FIELDS, 0)]);
            && Valid(START.db) && Coherent(Settled(START), START.db)
            && Repo.InOrder(GuestPage(START.db), Repo.FromCache(s.cache, s.db)) == [PRIVATE]
            && Access.GetAvailable(Success(PRIVATE), NIL, "") == Failure(NoRows)
  {
    StartCoherent();
    MadePrivate();
    GuestPageOfStart();
    var k := Access.KeyOf(SHOWN);
    assert [k][..0] == [];
    assert Repo.Hydrated(map[], Db(map[1 := PRIVATE], {OWNER}), 1) == Some(PRIVATE);
    hide Run, GuestPage;
  }

  const STRANGER: Uuid := 8
  const EMPTY: Db := Db(map[], {OWNER})
  const FIELDS: AlbumFields := AlbumFields("trip", "public", [], 0, true, "")
  const CREATION: Sharing.Event := Sharing.Act(Create(1, OWNER, FIELDS, 0))
  const STRANGERS_FLIGHT: Sharing.Event := Sharing.Lead(Sharing.IDFlight(1), STRANGER)

  lemma AfterCreation()
    ensures Sharing.Happen(Sharing.Fresh(EMPTY), CREATION)
         == Sharing.World(State(Db(map[1 := SHOWN], {OWNER}), map[], SetAlbum(SHOWN)), {SHOWN}, map[])
  {
    assert Write(EMPTY, CREATION.op) == Success(Written(Db(map[1 := SHOWN], {OWNER}), SHOWN, SHOWN));
    assert Sharing.Rows(Db(map[1 := SHOWN], {OWNER})) == {SHOWN} by {
      assert map[1 := SHOWN][1] == SHOWN;
    }
  }

  /** An album is created, and before its cache command has run a stranger asks for it by
      id. While that flight is in the air the owner, who joins it, is told that the album
      is missing, though a read of the owner's own would find it. */
  lemma OwnerTurnedAway()
    ensures var t := Sharing.Happenings(Sharing.Fresh(EMPTY), [CREATION] + [STRANGERS_FLIGHT]);
            && Valid(EMPTY) && Sharing.FreshRun(Sharing.Fresh(EMPTY), [CREATION] + [STRANGERS_FLIGHT])
            && CachedByID(t.s.cache, 1) == None && Sharing.IDFlight(1) in t.flights
            && Sharing.GetOwned(t.flights[Sharing.IDFlight(1)], OWNER) == Failure(NoRows)
            && Sharing.GetOwned(GetAlbum(t.s.db, 1, OWNER), OWNER) == Success(SHOWN)
  {
    var w := Sharing.Fresh(EMPTY);
    var es := [CREATION] + [STRANGERS_FLIGHT];
    assert es[..|es| - 1] == [CREATION] && [CREATION][..0] == [];
    AfterCreation();
    assert es[..0] == [] && es[..1] == [CREATION];
    assert Sharing.FreshRun(w, es) by {
      assert Sharing.FreshIn(w, CREATION);
    }
  }
}
