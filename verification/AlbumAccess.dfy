/** Who may see an album: the access check on a single album, the visibility predicate of
    the list query, and the proof that they agree. */
module AlbumAccess {
  import opened Wrappers
  import opened Uuids
  import opened AlbumTable
  import opened AlbumRuns
  import opened Pagination

  const PUBLIC := "public"
  const SHARED := "shared"

  /** Any access level other than public and shared is closed to all but the owner. */
  function CanAccess(access: string, sharedEmails: seq<string>, userEmail: string, isOwner: bool): bool {
    if isOwner then true
    else if access == PUBLIC then true
    else if access == SHARED then userEmail in sharedEmails
    else false
  }

  /** The service's check on what the repository found by slug. A guest has the nil id. */
  function GetAvailable(found: Result<Album, SqlError>, viewerID: Uuid, viewerEmail: string): Result<Album, SqlError> {
    match found
    case Failure(e) => Failure(e)
    case Success(a) =>
      var isOwner := viewerID != NIL && viewerID == a.userID;
      if (!a.isActive && !isOwner) || !CanAccess(a.access, a.sharedEmails, viewerEmail, isOwner) then Failure(NoRows)
      else Success(a)
  }

  /** Who may see a found album: its owner always; everyone else only while it is active,
      and then anyone if it is public and those it names if it is shared. */
  lemma GetAvailableExact(found: Result<Album, SqlError>, viewerID: Uuid, viewerEmail: string)
    ensures GetAvailable(found, viewerID, viewerEmail).Success? <==>
              && found.Success?
              && var a := found.value;
              || (viewerID != 0 && viewerID == a.userID)
              || (a.isActive && (a.access == "public" || (a.access == "shared" && viewerEmail in a.sharedEmails)))
    ensures GetAvailable(found, viewerID, viewerEmail) ==
              if GetAvailable(found, viewerID, viewerEmail).Success? || found.Failure? then found else Failure(NoRows)
  {
  }

  /** The levels of access by name: no other name opens an album to anyone but its owner. */
  lemma CanAccessExact(access: string, sharedEmails: seq<string>, userEmail: string, isOwner: bool)
    ensures CanAccess(access, sharedEmails, userEmail, isOwner)
       <==> isOwner || access == "public" || (access == "shared" && userEmail in sharedEmails)
  {
  }

  function KeyOf(a: Album): PageKey {
    PageKey(a.dateAt, a.id)
  }

  /** The WHERE clause of the list of available albums, apart from the cursor. */
  predicate Available(a: Album, userID: Uuid, viewerEmail: string) {
    && a.userID == userID && Live(a)
    && ((a.access == PUBLIC && a.isActive) || (a.access == SHARED && a.isActive && viewerEmail in a.sharedEmails))
  }

  function AvailableKeys(db: Db, userID: Uuid, viewerEmail: string): set<PageKey> {
    set id | id in db.albums && Available(db.albums[id], userID, viewerEmail) :: KeyOf(db.albums[id])
  }

  function OwnedKeys(db: Db, userID: Uuid): set<PageKey> {
    set id | id in db.albums && db.albums[id].userID == userID && Live(db.albums[id]) :: KeyOf(db.albums[id])
  }

  function TrashedKeys(db: Db, userID: Uuid): set<PageKey> {
    set id | id in db.albums && db.albums[id].userID == userID && !Live(db.albums[id])
      :: PageKey(db.albums[id].deletedAt.value, id)
  }

  /** The handler shows a logged-in user the owned list of their own page, and everyone
      else the available list. */
  function ListedKeys(db: Db, userID: Uuid, viewerID: Uuid, viewerEmail: string): set<PageKey> {
    if viewerID == NIL || viewerID != userID then AvailableKeys(db, userID, viewerEmail) else OwnedKeys(db, viewerID)
  }

  lemma ListedMembers(db: Db, userID: Uuid, viewerID: Uuid, viewerEmail: string, k: PageKey)
    requires Valid(db)
    ensures k in ListedKeys(db, userID, viewerID, viewerEmail)
       <==> k.id in db.albums && KeyOf(db.albums[k.id]) == k
            && if viewerID == NIL || viewerID != userID then Available(db.albums[k.id], userID, viewerEmail)
               else db.albums[k.id].userID == userID && Live(db.albums[k.id])
  {
  }

  /** The page size a request gets. */
  function ClampLimit(limit: int, albumsPerPage: int): (r: int)
    ensures albumsPerPage >= 1 ==> 1 <= r <= albumsPerPage && (1 <= limit <= albumsPerPage ==> r == limit)
    ensures !(1 <= limit <= albumsPerPage) ==> r == albumsPerPage
  {
    if limit <= 0 || limit > albumsPerPage then albumsPerPage else limit
  }

  /** List and single get agree: once no command is pending and the cache is coherent,
      following the cursor through the whole list of a user, with any limits, lists a live
      album of that user exactly when getting it by its slug succeeds, for every viewer. */
  lemma ListAndGetAgree(s: State, userID: Uuid, viewerID: Uuid, viewerEmail: string, reqs: seq<Request>, id: Uuid)
    requires Valid(s.db) && Coherent(s.cache, s.db) && s.pending == []
    requires Requests(reqs) && |reqs| > |ListedKeys(s.db, userID, viewerID, viewerEmail)|
    requires forall i :: 0 <= i < |reqs| ==> reqs[i].visible == ListedKeys(s.db, userID, viewerID, viewerEmail)
    requires id in s.db.albums && s.db.albums[id].userID == userID && Live(s.db.albums[id])
    ensures var a := s.db.albums[id];
            var found := ReadBySlug(s.cache, s.db, userID, a.slug).answer;
            KeyOf(a) in Follow(reqs, None).items <==> GetAvailable(found, viewerID, viewerEmail) == Success(a)
  {
    var a := s.db.albums[id];
    var keys := ListedKeys(s.db, userID, viewerID, viewerEmail);
    WalkListsKeys(keys, reqs, KeyOf(a));
    ListedMembers(s.db, userID, viewerID, viewerEmail, KeyOf(a));
    SettledNow(s);
    SlugLookupUnique(s.db, id, userID, a.slug);
    hide ListedKeys, Coherent, ReadBySlug, GetAlbumBySlug, Settled, Follow;
    ReadBySlugExact(s, userID, a.slug);
  }

  lemma WalkListsKeys(keys: set<PageKey>, reqs: seq<Request>, k: PageKey)
    requires Requests(reqs) && |reqs| > |keys| && forall i :: 0 <= i < |reqs| ==> reqs[i].visible == keys
    ensures k in Follow(reqs, None).items <==> k in keys
  {
    hide Follow, Sorted;
    FixedTableWalk(keys, reqs);
    SortedSpec(keys);
    assert k in Sorted(keys) <==> k in Elements(Sorted(keys));
  }

  /** And the walk lists nothing but live albums of that user. */
  lemma {:induction false} ListedAreLive(
    db: Db, userID: Uuid, viewerID: Uuid, viewerEmail: string, reqs: seq<Request>, k: PageKey)
    requires Valid(db) && Requests(reqs)
    requires forall i :: 0 <= i < |reqs| ==> reqs[i].visible == ListedKeys(db, userID, viewerID, viewerEmail)
    requires k in Follow(reqs, None).items
    ensures k.id in db.albums && KeyOf(db.albums[k.id]) == k
            && db.albums[k.id].userID == userID && Live(db.albums[k.id])
  {
    WalkDescends(reqs, None);
    ListedMembers(db, userID, viewerID, viewerEmail, k);
  }
}
