/** The albums table: its constraints and the statements that read and change it.
    Each statement is one atomic step. */
module AlbumTable {
  import opened Wrappers
  import opened Uuids

  /** One row. `content` stands for the title, the cover and the atlas, which no
      decision reads. */
  datatype Album = Album(
    id: Uuid,
    userID: Uuid,
    slug: string,
    directToken: Option<Uuid>,
    isActive: bool,
    access: string,
    sharedEmails: seq<string>,
    dateAt: int,
    content: string,
    updatedAt: int,
    deletedAt: Option<int>)

  /** The columns a create or update request carries. */
  datatype AlbumFields = AlbumFields(
    slug: string, access: string, sharedEmails: seq<string>, dateAt: int, isActive: bool, content: string)

  /** The albums by primary key, and the users whose `deleted_at` is null. */
  datatype Db = Db(albums: map<Uuid, Album>, activeUsers: set<Uuid>)

  datatype SqlError = NoRows | UniqueViolation

  /** What a RETURNING clause gives back, with the row as it was before. */
  datatype Written = Written(db: Db, album: Album, was: Album)

  predicate Live(a: Album) {
    a.deletedAt.None?
  }

  predicate HasSlug(a: Album, userID: Uuid, slug: string) {
    Live(a) && a.userID == userID && a.slug == slug
  }

  /** Two rows that may not both be stored: the partial unique index on (user_id, slug)
      of live rows, and the unique direct_token, which also binds deleted rows. */
  predicate Clash(a: Album, b: Album) {
    || (Live(a) && Live(b) && a.userID == b.userID && a.slug == b.slug)
    || (a.directToken.Some? && a.directToken == b.directToken)
  }

  ghost predicate Valid(db: Db) {
    && (forall id :: id in db.albums ==> db.albums[id].id == id)
    && (forall i, j :: i in db.albums && j in db.albums && i != j ==> !Clash(db.albums[i], db.albums[j]))
  }

  /** Another live row already uses the slug. */
  predicate SlugTaken(db: Db, userID: Uuid, slug: string, albumID: Uuid) {
    exists id :: id in db.albums && id != albumID && HasSlug(db.albums[id], userID, slug)
  }

  predicate TokenTaken(db: Db, token: Option<Uuid>, albumID: Uuid) {
    token.Some? && exists id :: id in db.albums && id != albumID && db.albums[id].directToken == token
  }

  /** Stores a row unless a unique index forbids it. */
  function Put(db: Db, a: Album, was: Album): Result<Written, SqlError> {
    if (Live(a) && SlugTaken(db, a.userID, a.slug, a.id)) || TokenTaken(db, a.directToken, a.id) then
      Failure(UniqueViolation)
    else
      Success(Written(db.(albums := db.albums[a.id := a]), a, was))
  }

  /** The WHERE clause shared by the guarded updates. */
  predicate Editable(db: Db, userID: Uuid, albumID: Uuid, live: bool) {
    && albumID in db.albums
    && db.albums[albumID].userID == userID
    && Live(db.albums[albumID]) == live
    && userID in db.activeUsers
  }

  function CreateAlbum(db: Db, id: Uuid, userID: Uuid, f: AlbumFields, now: int): Result<Written, SqlError> {
    if userID !in db.activeUsers then Failure(NoRows)
    else if id in db.albums then Failure(UniqueViolation)
    else
      var a := Album(id, userID, f.slug, None, f.isActive, f.access, f.sharedEmails, f.dateAt, f.content, now, None);
      Put(db, a, a)
  }

  function UpdateAlbum(db: Db, userID: Uuid, albumID: Uuid, f: AlbumFields, now: int): Result<Written, SqlError> {
    if !Editable(db, userID, albumID, true) then Failure(NoRows) else
      var was := db.albums[albumID];
      Put(db, was.(slug := f.slug, access := f.access, sharedEmails := f.sharedEmails, dateAt := f.dateAt,
                   isActive := f.isActive, content := f.content, updatedAt := now), was)
  }

  function UpdateAlbumDirectToken(db: Db, userID: Uuid, albumID: Uuid, token: Option<Uuid>, now: int)
    : Result<Written, SqlError>
  {
    if !Editable(db, userID, albumID, true) then Failure(NoRows) else
      var was := db.albums[albumID];
      Put(db, was.(directToken := token, updatedAt := now), was)
  }

  function ToggleAlbumActive(db: Db, userID: Uuid, albumID: Uuid, isActive: bool, now: int): Result<Written, SqlError> {
    if !Editable(db, userID, albumID, true) then Failure(NoRows) else
      var was := db.albums[albumID];
      Put(db, was.(isActive := isActive, updatedAt := now), was)
  }

  function SoftDeleteAlbum(db: Db, userID: Uuid, albumID: Uuid, now: int): Result<Written, SqlError> {
    if !Editable(db, userID, albumID, true) then Failure(NoRows) else
      var was := db.albums[albumID];
      Put(db, was.(deletedAt := Some(now), updatedAt := now), was)
  }

  function Suffixed(slug: string, suffix: string): string {
    (if |slug| <= 246 then slug else slug[..246]) + "-" + suffix
  }

  /** A restored row whose slug has meanwhile been taken gets the first 246 characters
      of it, a hyphen and a random suffix. */
  function RestoreAlbum(db: Db, userID: Uuid, albumID: Uuid, suffix: string, now: int): Result<Written, SqlError> {
    if !Editable(db, userID, albumID, false) then Failure(NoRows) else
      var was := db.albums[albumID];
      var slug := if SlugTaken(db, userID, was.slug, albumID) then Suffixed(was.slug, suffix) else was.slug;
      Put(db, was.(slug := slug, deletedAt := None, updatedAt := now), was)
  }

  function HardDeleteAlbum(db: Db, userID: Uuid, albumID: Uuid): Result<Written, SqlError> {
    if !Editable(db, userID, albumID, false) then Failure(NoRows) else
      var was := db.albums[albumID];
      Success(Written(db.(albums := db.albums - {albumID}), was, was))
  }

  ghost function GetAlbumBySlug(db: Db, userID: Uuid, slug: string): Result<Album, SqlError> {
    if exists id :: id in db.albums && HasSlug(db.albums[id], userID, slug) then
      var id :| id in db.albums && HasSlug(db.albums[id], userID, slug);
      Success(db.albums[id])
    else
      Failure(NoRows)
  }

  function GetAlbum(db: Db, albumID: Uuid, userID: Uuid): Result<Album, SqlError> {
    if albumID in db.albums && db.albums[albumID].userID == userID then Success(db.albums[albumID]) else Failure(NoRows)
  }

  predicate HasToken(a: Album, token: Uuid) {
    a.directToken == Some(token) && a.isActive && Live(a)
  }

  ghost function GetAlbumByDirectToken(db: Db, token: Uuid): Result<Album, SqlError> {
    if exists id :: id in db.albums && HasToken(db.albums[id], token) then
      var id :| id in db.albums && HasToken(db.albums[id], token);
      Success(db.albums[id])
    else
      Failure(NoRows)
  }

  lemma PutKeepsValid(db: Db, a: Album, was: Album)
    requires Valid(db) && Put(db, a, was).Success?
    ensures Valid(Put(db, a, was).value.db)
  {
    var db' := Put(db, a, was).value.db;
    forall i, j | i in db'.albums && j in db'.albums && i != j
      ensures !Clash(db'.albums[i], db'.albums[j])
    {
      if i == a.id {
        assert !HasSlug(db.albums[j], a.userID, a.slug) || !Live(a);
      } else if j == a.id {
        assert !HasSlug(db.albums[i], a.userID, a.slug) || !Live(a);
      } else {
        assert !Clash(db.albums[i], db.albums[j]);
      }
    }
  }

  /** With the constraints in force the two single-row lookups have one possible answer. */
  lemma SlugLookupUnique(db: Db, id: Uuid, userID: Uuid, slug: string)
    requires Valid(db)
    requires id in db.albums && HasSlug(db.albums[id], userID, slug)
    ensures GetAlbumBySlug(db, userID, slug) == Success(db.albums[id])
  {
    var other: Uuid :| other in db.albums && HasSlug(db.albums[other], userID, slug)
                 && GetAlbumBySlug(db, userID, slug) == Success(db.albums[other]);
    assert other != id ==> !Clash(db.albums[other], db.albums[id]);
  }

  lemma TokenLookupUnique(db: Db, id: Uuid, token: Uuid)
    requires Valid(db)
    requires id in db.albums && HasToken(db.albums[id], token)
    ensures GetAlbumByDirectToken(db, token) == Success(db.albums[id])
  {
    var other: Uuid :| other in db.albums && HasToken(db.albums[other], token)
                 && GetAlbumByDirectToken(db, token) == Success(db.albums[other]);
    assert other != id ==> !Clash(db.albums[other], db.albums[id]);
  }

  /** A restore fails, for a row the caller may restore, only if both the slug and its
      suffixed form are in use; otherwise the row is found again under its slug. */
  lemma RestoreExact(db: Db, userID: Uuid, albumID: Uuid, suffix: string, now: int)
    requires Valid(db) && Editable(db, userID, albumID, false)
    ensures var slug := db.albums[albumID].slug;
            var r := RestoreAlbum(db, userID, albumID, suffix, now);
            && (r.Success? <==>
                 !SlugTaken(db, userID, slug, albumID) || !SlugTaken(db, userID, Suffixed(slug, suffix), albumID))
            && (r.Success? ==>
                 && GetAlbumBySlug(r.value.db, userID, r.value.album.slug) == Success(r.value.album)
                 && (!SlugTaken(db, userID, slug, albumID) ==> r.value.album.slug == slug))
  {
    var was := db.albums[albumID];
    assert !TokenTaken(db, was.directToken, albumID) by {
      assert forall id :: id in db.albums && id != albumID ==> !Clash(db.albums[id], was);
    }
    var r := RestoreAlbum(db, userID, albumID, suffix, now);
    if r.Success? {
      PutKeepsValid(db, r.value.album, was);
      SlugLookupUnique(r.value.db, albumID, userID, r.value.album.slug);
    }
  }

  /** Restoring at once what was deleted gives the row back as it was, slug included. */
  lemma RestoreUndoesDelete(db: Db, userID: Uuid, albumID: Uuid, suffix: string, deleted: int, restored: int)
    requires Valid(db) && Editable(db, userID, albumID, true)
    ensures var d := SoftDeleteAlbum(db, userID, albumID, deleted);
            && d.Success? && GetAlbumBySlug(d.value.db, userID, db.albums[albumID].slug) == Failure(NoRows)
            && var r := RestoreAlbum(d.value.db, userID, albumID, suffix, restored);
            && r.Success? && r.value.album == db.albums[albumID].(updatedAt := restored)
            && r.value.db.albums == db.albums[albumID := r.value.album]
  {
    var was := db.albums[albumID];
    forall id | id in db.albums && id != albumID
      ensures !HasSlug(db.albums[id], userID, was.slug)
      ensures was.directToken.Some? ==> db.albums[id].directToken != was.directToken
    {
      assert !Clash(db.albums[id], was);
    }
    assert !TokenTaken(db, was.directToken, albumID);
    var gone := was.(deletedAt := Some(deleted), updatedAt := deleted);
    var d := SoftDeleteAlbum(db, userID, albumID, deleted).value.db;
    assert d.albums == db.albums[albumID := gone];
    assert !SlugTaken(d, userID, was.slug, albumID) && !TokenTaken(d, was.directToken, albumID);
  }

  /** The lookups, on the columns: by slug the one row of that user and slug that is not
      deleted, by token the one active row with that token that is not deleted, by id the
      row of that user, deleted or not; and no rows if there is none. */
  lemma LookupsExact(db: Db, userID: Uuid, slug: string, albumID: Uuid, token: Uuid, a: Album)
    requires Valid(db)
    ensures GetAlbumBySlug(db, userID, slug) == Success(a)
       <==> a.id in db.albums && db.albums[a.id] == a && a.userID == userID && a.slug == slug && a.deletedAt == None
    ensures GetAlbumByDirectToken(db, token) == Success(a)
       <==> a.id in db.albums && db.albums[a.id] == a
            && a.directToken == Some(token) && a.isActive && a.deletedAt == None
    ensures GetAlbum(db, albumID, userID) == Success(a)
       <==> albumID in db.albums && db.albums[albumID] == a && a.userID == userID
    ensures GetAlbumBySlug(db, userID, slug).Failure? ==> GetAlbumBySlug(db, userID, slug) == Failure(NoRows)
    ensures GetAlbumByDirectToken(db, token).Failure? ==> GetAlbumByDirectToken(db, token) == Failure(NoRows)
    ensures GetAlbum(db, albumID, userID).Failure? ==> GetAlbum(db, albumID, userID) == Failure(NoRows)
  {
    if a.id in db.albums && HasSlug(db.albums[a.id], userID, slug) {
      SlugLookupUnique(db, a.id, userID, slug);
    }
    if a.id in db.albums && HasToken(db.albums[a.id], token) {
      TokenLookupUnique(db, a.id, token);
    }
  }

  /** The suffixed slug: at most 246 characters of the old one, a hyphen, the suffix. */
  lemma SuffixedExact(slug: string, suffix: string)
    ensures var kept := if |slug| <= 246 then |slug| else 246;
            var s := Suffixed(slug, suffix);
            |s| == kept + 1 + |suffix| && s[..kept] == slug[..kept] && s[kept] == '-' && s[kept + 1..] == suffix
  {
    var kept := if |slug| <= 246 then slug else slug[..246];
    var s := Suffixed(slug, suffix);
    assert s == kept + ("-" + suffix);
    assert s[..|kept|] == kept && s[|kept| + 1..] == suffix;
  }
}
