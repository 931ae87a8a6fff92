/** The refresh_tokens table, its statements, and the repository that runs them. Tokens
    are stored by the hash of their text; hashing is injective, so the hash stands for
    the token. Times are in nanoseconds, on one clock. */
module TokenTable {
  import opened Wrappers
  import opened Uuids

  const SECOND: int := 1_000_000_000
  const DAY: int := 24 * 60 * 60 * SECOND

  datatype Token = Token(
    hash: string, id: Uuid, userID: Uuid, isConsumed: bool, updatedAt: Option<int>, expiresAt: int, createdAt: int)

  /** token_hash is unique. */
  type Table = map<string, Token>

  datatype TokenError = ErrTokenConsumed | ErrBadUUID | ErrDatabase

  predicate WellKeyed(rows: Table) {
    && (forall h :: h in rows ==> rows[h].hash == h)
    && (forall g, h :: g in rows && h in rows && rows[g].id == rows[h].id ==> g == h)
  }

  /** INSERT fails when the hash or the primary key is taken. */
  predicate Insertable(rows: Table, hash: string, id: Uuid) {
    hash !in rows && forall h :: h in rows ==> rows[h].id != id
  }

  function NewToken(hash: string, id: Uuid, userID: Uuid, expiresAt: int, now: int): Token {
    Token(hash, id, userID, false, None, expiresAt, now)
  }

  predicate Usable(rows: Table, hash: string) {
    hash in rows && !rows[hash].isConsumed
  }

  /** The token's row, if it is there and has not been consumed, is marked as consumed and
      dated; in every other case nothing changes. */
  function Consume(rows: Table, hash: string, now: int): Table {
    if Usable(rows, hash) then rows[hash := rows[hash].(isConsumed := true, updatedAt := Some(now))] else rows
  }

  function ActiveFor(rows: Table, userID: Uuid, now: int): set<Token> {
    set h | h in rows && rows[h].userID == userID && !rows[h].isConsumed && rows[h].expiresAt > now :: rows[h]
  }

  function DeleteByID(rows: Table, id: Uuid, userID: Uuid): Table {
    map h | h in rows && !(rows[h].id == id && rows[h].userID == userID) :: rows[h]
  }

  function DeleteOther(rows: Table, userID: Uuid, exceptHash: string): Table {
    map h | h in rows && !(rows[h].userID == userID && h != exceptHash) :: rows[h]
  }

  function DeleteAll(rows: Table, userID: Uuid): Table {
    map h | h in rows && rows[h].userID != userID :: rows[h]
  }

  predicate Stale(t: Token, now: int) {
    t.expiresAt < now || (t.isConsumed && t.updatedAt.Some? && t.updatedAt.value < now - DAY)
  }

  function Cleanup(rows: Table, now: int): Table {
    map h | h in rows && !Stale(rows[h], now) :: rows[h]
  }

  /** The columns of a row as it is inserted. */
  predicate Inserted(row: Token, hash: string, id: Uuid, userID: Uuid, expiresAt: int, now: int) {
    && row.hash == hash && row.id == id && row.userID == userID && !row.isConsumed && row.updatedAt == None
    && row.expiresAt == expiresAt && row.createdAt == now
  }

  /** Neither the hash nor the primary key is in use. */
  predicate Unused(rows: Table, hash: string, id: Uuid) {
    forall h :: h in rows ==> h != hash && rows[h].id != id
  }

  /** An insertion after a consumption meets the same hashes and ids. */
  lemma UnusedExact(rows: Table, consumed: string, now: int, hash: string, id: Uuid)
    ensures Insertable(rows, hash, id) <==> Unused(rows, hash, id)
    ensures Insertable(Consume(rows, consumed, now), hash, id) <==> Unused(rows, hash, id)
  {
    var t := Consume(rows, consumed, now);
    assert t.Keys == rows.Keys && forall h :: h in rows ==> t[h].id == rows[h].id;
    hide Consume;
    if Insertable(t, hash, id) {
      forall h | h in rows
        ensures h != hash && rows[h].id != id
      {
        assert h in t;
      }
    }
    if Unused(rows, hash, id) {
      forall h | h in t
        ensures t[h].id != id
      {
        assert h in rows;
      }
    }
  }

  /** The active sessions: the user's rows that are unconsumed and expire later. */
  lemma ActiveExact(rows: Table, userID: Uuid, now: int, t: Token)
    ensures t in ActiveFor(rows, userID, now)
       <==> exists h :: h in rows && rows[h] == t && t.userID == userID && !t.isConsumed && now < t.expiresAt
  {
  }

  /** Which rows each deletion leaves, all of them as they were. */
  lemma DeletionsExact(rows: Table, h: string, id: Uuid, userID: Uuid, exceptHash: string)
    ensures h in DeleteByID(rows, id, userID) <==> h in rows && (rows[h].id != id || rows[h].userID != userID)
    ensures h in DeleteOther(rows, userID, exceptHash) <==> h in rows && (rows[h].userID != userID || h == exceptHash)
    ensures h in DeleteAll(rows, userID) <==> h in rows && rows[h].userID != userID
    ensures h in DeleteByID(rows, id, userID) ==> DeleteByID(rows, id, userID)[h] == rows[h]
    ensures h in DeleteOther(rows, userID, exceptHash) ==> DeleteOther(rows, userID, exceptHash)[h] == rows[h]
    ensures h in DeleteAll(rows, userID) ==> DeleteAll(rows, userID)[h] == rows[h]
  {
  }

  /** Cleanup keeps exactly the rows that have not expired and were not consumed more than
      24 hours ago, as they were. */
  lemma CleanupExact(rows: Table, now: int, h: string)
    ensures h in Cleanup(rows, now) <==>
              && h in rows && rows[h].expiresAt >= now
              && (rows[h].isConsumed && rows[h].updatedAt.Some? ==>
                   now - rows[h].updatedAt.value <= 24 * 60 * 60 * 1_000_000_000)
    ensures h in Cleanup(rows, now) ==> Cleanup(rows, now)[h] == rows[h]
  {
  }

  /** A token is consumed once: afterwards it is not usable, consuming it again at any time
      changes nothing, its date included, and no other token is touched. */
  lemma ConsumeOnce(rows: Table, hash: string, now: int, later: int, other: string)
    ensures var t := Consume(rows, hash, now);
            && !Usable(t, hash) && Consume(t, hash, later) == t && t.Keys == rows.Keys
            && (Usable(rows, hash) ==> t[hash].updatedAt == Some(now))
            && (other != hash ==>
                 Usable(t, other) == Usable(rows, other) && (other in rows ==> t[other] == rows[other]))
  {
  }

  predicate NewestFirst(list: seq<Token>) {
    forall i, j :: 0 <= i < j < |list| ==> list[i].createdAt >= list[j].createdAt
  }

  /** A result the query for active sessions may give: ORDER BY created_at DESC leaves the
      order of rows created at the same time open. */
  ghost predicate SessionList(list: seq<Token>, rows: Table, userID: Uuid, now: int) {
    && NewestFirst(list)
    && (forall i, j :: 0 <= i < j < |list| ==> list[i] != list[j])
    && (forall t :: t in list <==> t in ActiveFor(rows, userID, now))
  }

  /** Cleanup changes nobody's list of active sessions, order included, now or at any later
      time, and removes no row that is neither consumed nor expired. */
  lemma CleanupInvisible(rows: Table, now: int, later: int, userID: Uuid, list: seq<Token>)
    requires now <= later
    ensures SessionList(list, Cleanup(rows, now), userID, later) <==> SessionList(list, rows, userID, later)
    ensures ActiveFor(Cleanup(rows, now), userID, later) == ActiveFor(rows, userID, later)
    ensures forall h :: Usable(rows, h) && rows[h].expiresAt >= now ==>
              h in Cleanup(rows, now) && Cleanup(rows, now)[h] == rows[h]
    ensures forall h :: h in rows && h !in Cleanup(rows, now) ==>
              || rows[h].expiresAt < now
              || (rows[h].isConsumed && rows[h].updatedAt.Some? && now - rows[h].updatedAt.value > DAY)
  {
    var kept := Cleanup(rows, now);
    forall t
      ensures t in ActiveFor(kept, userID, later) <==> t in ActiveFor(rows, userID, later)
    {
      if t in ActiveFor(rows, userID, later) {
        var h :| h in rows && rows[h] == t && t.userID == userID && !t.isConsumed && t.expiresAt > later;
        assert h in kept && kept[h] == t;
      }
    }
  }

  lemma {:induction false} NewestExists(s: set<Token>)
    requires s != {}
    ensures exists t :: t in s && forall u :: u in s ==> t.createdAt >= u.createdAt
    decreases |s|
  {
    var x :| x in s;
    if s != {x} {
      assert s == (s - {x}) + {x};
      NewestExists(s - {x});
      var t :| t in s - {x} && forall u :: u in s - {x} ==> t.createdAt >= u.createdAt;
      assert x.createdAt >= t.createdAt ==> forall u :: u in s ==> x.createdAt >= u.createdAt;
    }
  }

  class Repository {
    var rows: Table

    constructor ()
      ensures rows == map[]
    {
      rows := map[];
    }

    method Create(hash: string, id: Uuid, userID: Uuid, expiresAt: int, now: int) returns (r: Result<Uuid, TokenError>)
      modifies this
      ensures old(Insertable(rows, hash, id)) ==>
                r == Success(id) && rows == old(rows)[hash := NewToken(hash, id, userID, expiresAt, now)]
      ensures !old(Insertable(rows, hash, id)) ==> r == Failure(ErrDatabase) && rows == old(rows)
      ensures r.Success? <==> old(Unused(rows, hash, id))
      ensures r.Success? ==>
                rows.Keys == old(rows).Keys + {hash} && Inserted(rows[hash], hash, id, userID, expiresAt, now)
      ensures forall h :: h in old(rows) ==> h in rows && rows[h] == old(rows)[h]
      ensures old(WellKeyed(rows)) ==> WellKeyed(rows)
    {
      if !Insertable(rows, hash, id) {
        return Failure(ErrDatabase);
      }
      rows := rows[hash := NewToken(hash, id, userID, expiresAt, now)];
      return Success(id);
    }

    method GetByHash(hash: string) returns (r: Option<Token>)
      ensures r == if hash in rows then Some(rows[hash]) else None
    {
      r := if hash in rows then Some(rows[hash]) else None;
    }

    /** The active sessions, newest first. */
    method GetActiveForUser(userID: Uuid, now: int) returns (list: seq<Token>)
      ensures SessionList(list, rows, userID, now)
    {
      list := [];
      var left := ActiveFor(rows, userID, now);
      hide ActiveFor;
      while left != {}
        invariant left <= ActiveFor(rows, userID, now) && NewestFirst(list)
        invariant forall t :: t in ActiveFor(rows, userID, now) <==> t in list || t in left
        invariant forall t, u :: t in list && u in left ==> t != u && t.createdAt >= u.createdAt
        invariant forall i, j :: 0 <= i < j < |list| ==> list[i] != list[j]
        decreases left
      {
        NewestExists(left);
        var t :| t in left && forall u :: u in left ==> t.createdAt >= u.createdAt;
        list, left := list + [t], left - {t};
      }
    }

    method ConsumeByHash(hash: string, now: int) returns (affected: nat)
      modifies this
      ensures rows == Consume(old(rows), hash, now)
      ensures affected == if old(Usable(rows, hash)) then 1 else 0
      ensures old(WellKeyed(rows)) ==> WellKeyed(rows)
    {
      affected := if Usable(rows, hash) then 1 else 0;
      rows := Consume(rows, hash, now);
    }

    method DeleteByIDAndUser(id: Uuid, userID: Uuid) returns (r: Result<string, TokenError>)
      modifies this
      ensures rows == DeleteByID(old(rows), id, userID)
      ensures r.Success? ==> r.value in old(rows) && old(rows)[r.value].id == id && old(rows)[r.value].userID == userID
      ensures r.Failure? ==> rows == old(rows) && r.error == ErrBadUUID
      ensures r.Success? <==> exists h :: h in old(rows) && old(rows)[h].id == id && old(rows)[h].userID == userID
      ensures old(WellKeyed(rows)) ==> WellKeyed(rows)
    {
      if h :| h in rows && rows[h].id == id && rows[h].userID == userID {
        r := Success(h);
      } else {
        assert DeleteByID(rows, id, userID) == rows;
        r := Failure(ErrBadUUID);
      }
      rows := DeleteByID(rows, id, userID);
    }

    method DeleteOtherForUser(userID: Uuid, exceptHash: string)
      modifies this
      ensures rows == DeleteOther(old(rows), userID, exceptHash)
      ensures old(WellKeyed(rows)) ==> WellKeyed(rows)
    {
      rows := DeleteOther(rows, userID, exceptHash);
    }

    method DeleteAllRefreshForUser(userID: Uuid)
      modifies this
      ensures rows == DeleteAll(old(rows), userID)
      ensures old(WellKeyed(rows)) ==> WellKeyed(rows)
    {
      rows := DeleteAll(rows, userID);
    }

    method CleanupRefreshTokens(now: int)
      modifies this
      ensures rows == Cleanup(old(rows), now)
      ensures old(WellKeyed(rows)) ==> WellKeyed(rows)
    {
      rows := Cleanup(rows, now);
    }

    /** Consume the old token and create the new one, or do neither: on any failure the
        rows are rolled back to what they were when the transaction began. */
    method ReplaceInTransaction(userID: Uuid, oldHash: string, newHash: string, id: Uuid, expiresAt: int, now: int)
      returns (r: Result<(), TokenError>)
      modifies this
      ensures r.Failure? ==> rows == old(rows)
      ensures r == Failure(ErrTokenConsumed) <==> !old(Usable(rows, oldHash))
      ensures r.Success? <==> old(Usable(rows, oldHash)) && Insertable(Consume(old(rows), oldHash, now), newHash, id)
      ensures r.Success? ==>
                rows == Consume(old(rows), oldHash, now)[newHash := NewToken(newHash, id, userID, expiresAt, now)]
      ensures r.Success? <==> oldHash in old(rows) && !old(rows)[oldHash].isConsumed && old(Unused(rows, newHash, id))
      ensures r.Success? ==>
                && rows.Keys == old(rows).Keys + {newHash}
                && Inserted(rows[newHash], newHash, id, userID, expiresAt, now)
                && rows[oldHash].isConsumed && rows[oldHash].updatedAt == Some(now)
      ensures forall h :: h in old(rows) && h != oldHash ==> h in rows && rows[h] == old(rows)[h]
      ensures old(WellKeyed(rows)) ==> WellKeyed(rows)
    {
      UnusedExact(rows, oldHash, now, newHash, id);
      var savepoint := rows;
      var affected := ConsumeByHash(oldHash, now);
      if affected == 0 {
        rows := savepoint;
        return Failure(ErrTokenConsumed);
      }
      var created := Create(newHash, id, userID, expiresAt, now);
      if created.Failure? {
        rows := savepoint;
        return Failure(created.error);
      }
      return Success(());
    }
  }
}
