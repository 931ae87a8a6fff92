/** The auth service: sequences of statements on the token repository with early returns,
    and the proof that a refresh call left alone is one of the protocol's runs. */
module AuthService {
  import opened Wrappers
  import opened Uuids
  import opened TokenTable
  import opened SessionProtocol

  /** What a refresh call does from the row it has read, which by the time of the
      transaction may have been consumed or deleted by others. */
  function RefreshFrom(
    rows: Table, users: set<Uuid>, oldHash: string, row: Token, newHash: string, id: Uuid, now: int, ttl: int)
    : (Table, Outcome)
  {
    if row.expiresAt < now then (rows, Refused(ErrTokenExpired))
    else if row.isConsumed then
      if row.updatedAt.Some? && now - row.updatedAt.value < GRACE then (rows, Refused(ErrTokenGracePeriod))
      else (DeleteAll(rows, row.userID), Refused(Refusal.ErrTokenConsumed))
    else if !Usable(rows, oldHash) then (DeleteAll(rows, row.userID), Refused(ErrRefreshSession))
    else if !Insertable(Consume(rows, oldHash, now), newHash, id) then (rows, Refused(ErrRefreshSession))
    else
      (Consume(rows, oldHash, now)[newHash := NewToken(newHash, id, row.userID, now + ttl, now)],
       if row.userID in users then Pair(newHash) else Refused(ErrRefreshSession))
  }

  /** What it does when nothing happens between its statements. */
  function RefreshAlone(rows: Table, users: set<Uuid>, oldHash: string, newHash: string, id: Uuid, now: int, ttl: int)
    : (Table, Outcome)
  {
    if oldHash !in rows then (rows, Refused(ErrRefreshSession))
    else RefreshFrom(rows, users, oldHash, rows[oldHash], newHash, id, now, ttl)
  }

  class Service {
    const tokens: Repository

    constructor (tokens: Repository)
      ensures this.tokens == tokens
    {
      this.tokens := tokens;
    }

    method IssueSessionTokens(userID: Uuid, refresh: string, id: Uuid, now: int, ttl: int) returns (r: Option<string>)
      modifies tokens
      ensures r.Some? ==> r.value == refresh && Usable(tokens.rows, refresh)
                          && tokens.rows == old(tokens.rows)[refresh := NewToken(refresh, id, userID, now + ttl, now)]
      ensures r.Some? <==> old(Unused(tokens.rows, refresh, id))
      ensures r.Some? ==> Inserted(tokens.rows[refresh], refresh, id, userID, now + ttl, now)
      ensures r.None? ==> tokens.rows == old(tokens.rows)
      ensures old(WellKeyed(tokens.rows)) ==> WellKeyed(tokens.rows)
    {
      var created := tokens.Create(refresh, id, userID, now + ttl, now);
      r := if created.Success? then Some(refresh) else None;
    }

    method ConsumeSessionToken(hash: string, now: int)
      modifies tokens
      ensures tokens.rows == Consume(old(tokens.rows), hash, now) && !Usable(tokens.rows, hash)
    {
      var affected := tokens.ConsumeByHash(hash, now);
    }

    /** Reports whether the revoked session is the caller's own. */
    method RevokeSession(id: Uuid, userID: Uuid, currentHash: string) returns (r: Result<bool, TokenError>)
      requires WellKeyed(tokens.rows)
      modifies tokens
      ensures tokens.rows == DeleteByID(old(tokens.rows), id, userID)
      ensures r.Success? ==> (r.value <==> currentHash in old(tokens.rows) && currentHash !in tokens.rows)
      ensures r.Success? <==> exists h :: h in old(tokens.rows) && old(tokens.rows)[h].id == id
                                          && old(tokens.rows)[h].userID == userID
      ensures r.Failure? ==> r.error == ErrBadUUID && tokens.rows == old(tokens.rows)
      ensures WellKeyed(tokens.rows)
    {
      var deleted := tokens.DeleteByIDAndUser(id, userID);
      r := match deleted case Failure(e) => Failure(e) case Success(hash) => Success(currentHash == hash);
    }

    method DeleteOtherSessions(userID: Uuid, hash: string)
      modifies tokens
      ensures tokens.rows == DeleteOther(old(tokens.rows), userID, hash)
    {
      tokens.DeleteOtherForUser(userID, hash);
    }

    method RefreshSession(users: set<Uuid>, oldHash: string, newHash: string, id: Uuid, now: int, ttl: int)
      returns (out: Outcome)
      modifies tokens
      ensures (tokens.rows, out) == RefreshAlone(old(tokens.rows), users, oldHash, newHash, id, now, ttl)
      ensures out.Pair? ==> Usable(tokens.rows, out.refresh) && !Usable(tokens.rows, oldHash)
      ensures out.Pair? ==>
                && out.refresh == newHash && oldHash in old(tokens.rows)
                && Inserted(tokens.rows[newHash], newHash, id, old(tokens.rows)[oldHash].userID, now + ttl, now)
      ensures old(WellKeyed(tokens.rows)) ==> WellKeyed(tokens.rows)
    {
      var found := tokens.GetByHash(oldHash);
      if found.None? {
        return Refused(ErrRefreshSession);
      }
      out := FinishRefresh(users, oldHash, found.value, newHash, id, now, ttl);
    }

    method FinishRefresh(
      users: set<Uuid>, oldHash: string, oldToken: Token, newHash: string, id: Uuid, now: int, ttl: int)
      returns (out: Outcome)
      modifies tokens
      ensures (tokens.rows, out) == RefreshFrom(old(tokens.rows), users, oldHash, oldToken, newHash, id, now, ttl)
      ensures old(WellKeyed(tokens.rows)) ==> WellKeyed(tokens.rows)
    {
      if oldToken.expiresAt < now {
        return Refused(ErrTokenExpired);
      }
      if oldToken.isConsumed {
        if oldToken.updatedAt.Some? && now - oldToken.updatedAt.value < GRACE {
          return Refused(ErrTokenGracePeriod);
        }
        tokens.DeleteAllRefreshForUser(oldToken.userID);
        return Refused(Refusal.ErrTokenConsumed);
      }
      var replaced := tokens.ReplaceInTransaction(oldToken.userID, oldHash, newHash, id, now + ttl, now);
      if replaced.Failure? {
        if replaced.error == TokenError.ErrTokenConsumed {
          tokens.DeleteAllRefreshForUser(oldToken.userID);
        }
        return Refused(ErrRefreshSession);
      }
      if oldToken.userID !in users {
        return Refused(ErrRefreshSession);
      }
      return Pair(newHash);
    }
  }

  /* ---------- what a session is good for ---------- */

  /** The reply to a refresh, on the columns of the row presented. */
  lemma RefreshReplies(
    rows: Table, users: set<Uuid>, oldHash: string, newHash: string, id: Uuid, now: int, ttl: int)
    ensures var (rows', out) := RefreshAlone(rows, users, oldHash, newHash, id, now, ttl);
            if oldHash !in rows then out == Refused(ErrRefreshSession) && rows' == rows else
              var row := rows[oldHash];
              if row.expiresAt < now then out == Refused(ErrTokenExpired) && rows' == rows
              else if row.isConsumed then
                if row.updatedAt.Some? && now < row.updatedAt.value + 5_000_000_000 then
                  out == Refused(ErrTokenGracePeriod) && rows' == rows
                else out == Refused(Refusal.ErrTokenConsumed)
                     && forall h :: h in rows' <==> h in rows && rows[h].userID != row.userID
              else if !Unused(rows, newHash, id) then out == Refused(ErrRefreshSession) && rows' == rows
              else out == if row.userID in users then Pair(newHash) else Refused(ErrRefreshSession)
  {
    UnusedExact(rows, oldHash, now, newHash, id);
    hide Insertable, Unused, Consume;
  }

  /** An unconsumed row is an active session of its user at every time before it expires,
      and as long as it has not expired it can be exchanged: for a row of the same user
      that expires a lifetime later, the old one being consumed then. Later on it is told
      that it has expired, and nothing changes. */
  lemma SessionLife(
    rows: Table, users: set<Uuid>, hash: string, newHash: string, id: Uuid, now: int, ttl: int)
    requires hash in rows && !rows[hash].isConsumed && Unused(rows, newHash, id) && rows[hash].userID in users
    ensures rows[hash] in ActiveFor(rows, rows[hash].userID, now) <==> now < rows[hash].expiresAt
    ensures var (rows', out) := RefreshAlone(rows, users, hash, newHash, id, now, ttl);
            if now <= rows[hash].expiresAt then
              && out == Pair(newHash) && rows'.Keys == rows.Keys + {newHash}
              && Inserted(rows'[newHash], newHash, id, rows[hash].userID, now + ttl, now)
              && rows'[hash] == rows[hash].(isConsumed := true, updatedAt := Some(now))
              && (forall h :: h in rows && h != hash ==> rows'[h] == rows[h])
            else out == Refused(ErrTokenExpired) && rows' == rows
  {
  }

  /** A session that was issued for a lifetime: until then it is active and can be
      exchanged, and the session it is exchanged for is active for a lifetime from then. */
  lemma IssuedSessionLife(
    before: Table, rows: Table, users: set<Uuid>, hash: string, id: Uuid, userID: Uuid, issued: int, ttl: int,
    newHash: string, newID: Uuid, now: int, later: int)
    requires rows == before[hash := NewToken(hash, id, userID, issued + ttl, issued)]
    requires Unused(rows, newHash, newID) && userID in users && issued <= now
    ensures Inserted(rows[hash], hash, id, userID, issued + ttl, issued)
    ensures rows[hash] in ActiveFor(rows, userID, now) <==> now < issued + ttl
    ensures var (rows', out) := RefreshAlone(rows, users, hash, newHash, newID, now, ttl);
            if now <= issued + ttl then
              && out == Pair(newHash) && newHash in rows'
              && (rows'[newHash] in ActiveFor(rows', userID, later) <==> later < now + ttl)
            else out == Refused(ErrTokenExpired)
  {
    SessionLife(rows, users, hash, newHash, newID, now, ttl);
  }

  /** After a cleanup a token consumed more than 24 hours ago is unknown: presenting it is
      refused like any unknown token, and nobody's rows are touched. */
  lemma CleanedUpIsUnknown(
    rows: Table, users: set<Uuid>, hash: string, newHash: string, id: Uuid, cleaned: int, now: int, ttl: int)
    requires hash in rows ==>
               && rows[hash].isConsumed && rows[hash].updatedAt.Some?
               && rows[hash].updatedAt.value + 24 * 60 * 60 * 1_000_000_000 < cleaned
    ensures RefreshAlone(Cleanup(rows, cleaned), users, hash, newHash, id, now, ttl)
         == (Cleanup(rows, cleaned), Refused(ErrRefreshSession))
  {
    CleanupExact(rows, cleaned, hash);
    hide Cleanup;
  }

  /** The steps of one refresh call. */
  function CallEvents(call: nat, oldHash: string, newHash: string, id: Uuid, ttl: int): seq<Event> {
    [Begin(call, oldHash)] + [ReadRow(call)] + [CheckExpiry(call)] + [CheckConsumed(call, newHash, ttl)]
    + [Replace(call, id)] + [Wipe(call)] + [LookupUser(call)]
  }

  function UpToVerdict(s: Sys, call: nat, oldHash: string, newHash: string, ttl: int): Sys {
    Next(Next(Next(Next(s, Begin(call, oldHash)), ReadRow(call)), CheckExpiry(call)), CheckConsumed(call, newHash, ttl))
  }

  /** What a call that reads, checks and decides at one moment decides. */
  function Verdict(rows: Table, oldHash: string, newHash: string, now: int, ttl: int): Phase {
    Judged(Checked(Read(rows, oldHash), now), newHash, now, ttl)
  }

  function Finish(rows: Table, users: set<Uuid>, oldHash: string, p: Phase, id: Uuid, now: int): (Table, Phase) {
    match p
    case Replacing(row, newHash, expiresAt) =>
      var consumed := Consume(rows, oldHash, now);
      if Insertable(consumed, newHash, id) then
        (consumed[newHash := NewToken(newHash, id, row.userID, expiresAt, now)],
         Done(if row.userID in users then Pair(newHash) else Refused(ErrRefreshSession)))
      else (rows, Done(Refused(ErrRefreshSession)))
    case Wiping(userID, why) => (DeleteAll(rows, userID), Done(Refused(why)))
    case _ => (rows, p)
  }

  function With(s: Sys, call: nat, c: Call): Sys {
    s.(calls := s.calls[call := c])
  }

  function Read(rows: Table, hash: string): Phase {
    if hash in rows then Found(rows[hash]) else Done(Refused(ErrRefreshSession))
  }

  function Checked(p: Phase, now: int): Phase {
    if !p.Found? then p
    else if p.row.expiresAt < now then Done(Refused(ErrTokenExpired))
    else Unexpired(p.row)
  }

  lemma ReadsAlone(s: Sys, call: nat, oldHash: string)
    requires call !in s.calls
    ensures Next(Next(s, Begin(call, oldHash)), ReadRow(call)) == With(s, call, Call(oldHash, Read(s.rows, oldHash)))
  {
    assert Next(s, Begin(call, oldHash)) == With(s, call, Call(oldHash, Began));
  }

  lemma ChecksAlone(s: Sys, call: nat, c: Call)
    ensures Next(With(s, call, c), CheckExpiry(call)) == With(s, call, c.(phase := Checked(c.phase, s.now)))
  {
  }

  /** A call that nothing interrupts reaches its verdict, and leaves everything but itself
      and the token text it chose as it was. */
  lemma VerdictAlone(s: Sys, call: nat, oldHash: string, newHash: string, ttl: int)
    requires call !in s.calls && newHash !in s.log.minted
    ensures UpToVerdict(s, call, oldHash, newHash, ttl)
         == Decided(s, call, Call(oldHash, Verdict(s.rows, oldHash, newHash, s.now, ttl)))
  {
    var c := Call(oldHash, Read(s.rows, oldHash));
    ReadsAlone(s, call, oldHash);
    ChecksAlone(s, call, c);
    var t := With(s, call, c.(phase := Checked(c.phase, s.now)));
    DecidesAlone(t, call, newHash, ttl);
    hide Next;
    assert forall p :: Decided(t, call, Call(oldHash, p)) == Decided(s, call, Call(oldHash, p));
  }

  function Decided(s: Sys, call: nat, c: Call): Sys {
    With(if c.phase.Replacing? then s.(log := Choose(s.log, c.phase.newHash, call)) else s, call, c)
  }

  lemma DecidesAlone(s: Sys, call: nat, newHash: string, ttl: int)
    requires call in s.calls && newHash !in s.log.minted && !s.calls[call].phase.Replacing?
    ensures var c := s.calls[call];
            Next(s, CheckConsumed(call, newHash, ttl))
            == Decided(s, call, c.(phase := Judged(c.phase, newHash, s.now, ttl)))
  {
    var c := s.calls[call];
    if !c.phase.Unexpired? {
      assert Next(s, CheckConsumed(call, newHash, ttl)) == s == With(s, call, c);
    } else {
      assert Next(s, CheckConsumed(call, newHash, ttl)) == Decide(s, call, c.phase.row, newHash, ttl);
      hide Next, Choose;
    }
  }

  function Judged(p: Phase, newHash: string, now: int, ttl: int): Phase {
    if !p.Unexpired? then p
    else if !p.row.isConsumed then Replacing(p.row, newHash, now + ttl)
    else if p.row.updatedAt.Some? && now - p.row.updatedAt.value < GRACE then Done(Refused(ErrTokenGracePeriod))
    else Wiping(p.row.userID, Refusal.ErrTokenConsumed)
  }

  function Wiped(t: Sys, call: nat): Sys
    requires call in t.calls
  {
    var p := t.calls[call].phase;
    if p.Wiping? then Advance(t.(rows := DeleteAll(t.rows, p.userID)), call, Done(Refused(p.why))) else t
  }

  lemma WipeAlone(t: Sys, call: nat)
    requires call in t.calls
    ensures Next(t, Wipe(call)) == Wiped(t, call)
  {
    hide DeleteAll;
  }

  lemma LookupAlone(t: Sys, call: nat)
    requires call in t.calls && t.calls[call].phase.Done?
    ensures Next(t, LookupUser(call)) == t
  {
  }

  lemma WipesAlone(t: Sys, call: nat)
    requires call in t.calls && (t.calls[call].phase.Wiping? || t.calls[call].phase.Done?)
    ensures Next(Next(t, Wipe(call)), LookupUser(call)) == Wiped(t, call)
  {
    WipeAlone(t, call);
    LookupAlone(Wiped(t, call), call);
    hide Next;
  }

  lemma CommitsAlone(t: Sys, call: nat, id: Uuid)
    requires call in t.calls && t.calls[call].phase.Replacing? && Usable(t.rows, t.calls[call].oldHash)
    requires Insertable(Consume(t.rows, t.calls[call].oldHash, t.now), t.calls[call].phase.newHash, id)
    ensures var p := t.calls[call].phase;
            var u := Next(Next(Next(t, Replace(call, id)), Wipe(call)), LookupUser(call));
            && call in u.calls && u.rows == Commit(t, call, id).rows
            && u.calls[call].phase ==
                 Done(if p.row.userID in t.availableUsers then Pair(p.newHash) else Refused(ErrRefreshSession))
  {
    ReplaceIsCommit(t, call, id);
    var t1 := Commit(t, call, id);
    var p := t.calls[call].phase;
    assert t1.calls[call].phase == Replaced(p.row.userID, p.newHash) && t1.availableUsers == t.availableUsers;
    hide Commit;
    assert Next(t1, Wipe(call)) == t1;
  }

  lemma FinishAlone(t: Sys, call: nat, id: Uuid)
    requires call in t.calls
    requires var p := t.calls[call].phase;
             p.Done? || p.Wiping? || (p.Replacing? && Usable(t.rows, t.calls[call].oldHash))
    ensures var u := Next(Next(Next(t, Replace(call, id)), Wipe(call)), LookupUser(call));
            call in u.calls &&
            (u.rows, u.calls[call].phase)
            == Finish(t.rows, t.availableUsers, t.calls[call].oldHash, t.calls[call].phase, id, t.now)
  {
    var p := t.calls[call].phase;
    if p.Replacing? && Insertable(Consume(t.rows, t.calls[call].oldHash, t.now), p.newHash, id) {
      CommitsAlone(t, call, id);
      hide Next;
    } else {
      var t1 := Next(t, Replace(call, id));
      assert t1 == if p.Replacing? then Advance(t, call, Done(Refused(ErrRefreshSession))) else t;
      hide Next;
      WipesAlone(t1, call);
    }
  }

  lemma FinishedVerdict(rows: Table, users: set<Uuid>, oldHash: string, newHash: string, id: Uuid, now: int, ttl: int)
    ensures var p := Verdict(rows, oldHash, newHash, now, ttl);
            var (rows', out) := RefreshAlone(rows, users, oldHash, newHash, id, now, ttl);
            Finish(rows, users, oldHash, p, id, now) == (rows', Done(out))
            && (p.Done? || p.Wiping? || (p.Replacing? && Usable(rows, oldHash)))
  {
  }

  lemma RunIsFinish(s: Sys, call: nat, oldHash: string, newHash: string, id: Uuid, ttl: int)
    ensures Run(s, CallEvents(call, oldHash, newHash, id, ttl))
         == var t := UpToVerdict(s, call, oldHash, newHash, ttl);
            Next(Next(Next(t, Replace(call, id)), Wipe(call)), LookupUser(call))
  {
    var e1 := [Begin(call, oldHash)];
    var e2 := e1 + [ReadRow(call)];
    var e3 := e2 + [CheckExpiry(call)];
    var e4 := e3 + [CheckConsumed(call, newHash, ttl)];
    var e5 := e4 + [Replace(call, id)];
    assert [] + e1 == e1;
    RunSnoc(s, [], Begin(call, oldHash));
    RunSnoc(s, e1, ReadRow(call));
    RunSnoc(s, e2, CheckExpiry(call));
    RunSnoc(s, e3, CheckConsumed(call, newHash, ttl));
    RunSnoc(s, e4, Replace(call, id));
    RunSnoc(s, e5, Wipe(call));
    RunSnoc(s, e5 + [Wipe(call)], LookupUser(call));
  }

  /** The service method is the protocol's call with no other step in between. */
  lemma AloneIsRun(s: Sys, call: nat, oldHash: string, newHash: string, id: Uuid, ttl: int)
    requires call !in s.calls && newHash !in s.log.minted
    ensures var (rows, out) := RefreshAlone(s.rows, s.availableUsers, oldHash, newHash, id, s.now, ttl);
            var t := Run(s, CallEvents(call, oldHash, newHash, id, ttl));
            t.rows == rows && call in t.calls && t.calls[call].phase == Done(out)
  {
    RunIsFinish(s, call, oldHash, newHash, id, ttl);
    VerdictAlone(s, call, oldHash, newHash, ttl);
    FinishedVerdict(s.rows, s.availableUsers, oldHash, newHash, id, s.now, ttl);
    FinishAlone(UpToVerdict(s, call, oldHash, newHash, ttl), call, id);
  }
}
