/** Refreshing with a token that has been consumed, or whose row has been deleted, since the
    call read it, or before: what becomes of the call, whatever else happens. */
module SessionRetries {
  import opened Wrappers
  import opened Uuids
  import opened TokenTable
  import opened SessionProtocol

  predicate HasRead(p: Phase) {
    p.Found? || p.Unexpired? || p.Replacing?
  }

  predicate IsStepOf(e: Event, call: nat) {
    IsCallStep(e) && e.call == call
  }

  /** A token that was issued and can no longer be consumed: consumed already, or deleted. */
  predicate Spent(s: Sys, hash: string) {
    hash in s.log.family && !Usable(s.rows, hash)
  }

  /** A call that read its token while it could be consumed, and comes too late, can only
      find it expired, or fail to consume it and wipe. */
  predicate ReadBefore(c: Call) {
    match c.phase
    case Found(row) => !row.isConsumed
    case Unexpired(row) => !row.isConsumed
    case Replacing(_, _, _) => true
    case Wiping(_, why) => why == ErrRefreshSession
    case Done(out) => out == Refused(ErrTokenExpired) || out == Refused(ErrRefreshSession)
    case _ => false
  }

  predicate GraceOver(log: Log, now: int, hash: string) {
    hash in log.consumedAt && log.consumedAt[hash] + GRACE <= now
  }

  /** A call that read its token after the consumption never reaches the transaction, and
      wipes only once the grace period is over. */
  predicate ReadAfter(log: Log, now: int, c: Call) {
    && c.oldHash in log.consumedAt
    && match c.phase
       case Found(row) => row.isConsumed
       case Unexpired(row) => row.isConsumed
       case Wiping(_, why) => why == Refusal.ErrTokenConsumed && GraceOver(log, now, c.oldHash)
       case Done(out) =>
         || out == Refused(ErrTokenExpired) || out == Refused(ErrTokenGracePeriod)
         || (out == Refused(Refusal.ErrTokenConsumed) && GraceOver(log, now, c.oldHash))
       case _ => false
  }

  predicate IsCallStep(e: Event) {
    e.ReadRow? || e.CheckExpiry? || e.CheckConsumed? || e.Replace? || e.Wipe? || e.LookupUser?
  }

  lemma OtherCallsStep(s: Sys, e: Event, d: nat)
    requires d in s.calls && IsCallStep(e) && e.call != d
    ensures d in Next(s, e).calls && Next(s, e).calls[d] == s.calls[d]
  {
    hide DeleteAll, Insertable, Consume, Usable, FamilyOf;
    match e
    case ReadRow(_) =>
    case CheckExpiry(_) =>
    case CheckConsumed(_, _, _) =>
    case Replace(c, id) => OtherReplaces(s, c, id, d);
    case Wipe(_) =>
    case LookupUser(_) =>
  }

  lemma OtherReplaces(s: Sys, c: nat, id: Uuid, d: nat)
    requires d in s.calls && c != d
    ensures d in Next(s, Replace(c, id)).calls && Next(s, Replace(c, id)).calls[d] == s.calls[d]
  {
    hide Insertable, Consume, Usable, FamilyOf;
  }

  lemma NoCallsStep(s: Sys, e: Event, d: nat)
    requires d in s.calls && !IsCallStep(e)
    ensures d in Next(s, e).calls && Next(s, e).calls[d] == s.calls[d]
  {
    hide DeleteByID, DeleteOther, DeleteAll, Cleanup, Insertable, Consume, Usable, FamilyOf;
  }

  lemma OthersLeaveCall(s: Sys, e: Event, d: nat)
    requires d in s.calls && !IsStepOf(e, d)
    ensures d in Next(s, e).calls && Next(s, e).calls[d] == s.calls[d]
  {
    hide Next;
    if IsCallStep(e) {
      OtherCallsStep(s, e, d);
    } else {
      NoCallsStep(s, e, d);
    }
  }

  lemma TimePasses(s: Sys, e: Event)
    ensures s.now <= Next(s, e).now
  {
    hide DeleteByID, DeleteOther, DeleteAll, Cleanup, Insertable, Consume, Usable, FamilyOf;
  }

  lemma ReadIdle(s: Sys, d: nat)
    requires d in s.calls && !s.calls[d].phase.Began?
    ensures Next(s, ReadRow(d)) == s
  {
  }

  lemma LookupIdle(s: Sys, d: nat)
    requires d in s.calls && !s.calls[d].phase.Replaced?
    ensures Next(s, LookupUser(d)) == s
  {
  }

  lemma ReplaceIdle(s: Sys, d: nat, id: Uuid)
    requires d in s.calls && !s.calls[d].phase.Replacing?
    ensures Next(s, Replace(d, id)) == s
  {
    hide ReplaceStep;
  }

  /** What the steps lead to on the "before" side. */
  predicate StaysBefore(s: Sys, t: Sys, e: Event, d: nat)
    requires d in s.calls
  {
    var c := s.calls[d];
    && d in t.calls && t.calls[d].oldHash == c.oldHash
    && ReadBefore(t.calls[d])
    && (t.calls[d].phase == Done(Refused(ErrRefreshSession)) ==> t.calls[d] == c || (e == Wipe(d) && c.phase.Wiping?))
    && (e.Replace? && c.phase.Replacing? ==> t.calls[d].phase.Wiping?)
    && (t.rows != s.rows ==> e == Wipe(d) && c.phase.Wiping?)
  }

  lemma ExpiryBefore(s: Sys, d: nat)
    requires d in s.calls && ReadBefore(s.calls[d])
    ensures StaysBefore(s, Next(s, CheckExpiry(d)), CheckExpiry(d), d)
  {
  }

  lemma DecideBefore(s: Sys, d: nat, newHash: string, ttl: int)
    requires d in s.calls && ReadBefore(s.calls[d])
    ensures StaysBefore(s, Next(s, CheckConsumed(d, newHash, ttl)), CheckConsumed(d, newHash, ttl), d)
  {
  }

  lemma ReplaceBefore(s: Sys, d: nat, id: Uuid)
    requires d in s.calls && ReadBefore(s.calls[d]) && !Usable(s.rows, s.calls[d].oldHash)
    ensures StaysBefore(s, Next(s, Replace(d, id)), Replace(d, id), d)
  {
    hide Usable, Insertable, Stored;
  }

  lemma WipeBefore(s: Sys, d: nat)
    requires d in s.calls && ReadBefore(s.calls[d])
    ensures StaysBefore(s, Next(s, Wipe(d)), Wipe(d), d)
  {
    hide DeleteAll;
  }

  /** The call's own steps on the "before" side. */
  lemma OwnStepBefore(s: Sys, e: Event, d: nat)
    requires d in s.calls && IsStepOf(e, d) && ReadBefore(s.calls[d]) && !Usable(s.rows, s.calls[d].oldHash)
    ensures StaysBefore(s, Next(s, e), e, d)
  {
    hide Next, Usable;
    match e
    case CheckExpiry(_) => ExpiryBefore(s, d);
    case CheckConsumed(_, newHash, ttl) => DecideBefore(s, d, newHash, ttl);
    case Replace(_, id) => ReplaceBefore(s, d, id);
    case Wipe(_) => WipeBefore(s, d);
    case ReadRow(_) => ReadIdle(s, d);
    case LookupUser(_) => LookupIdle(s, d);
  }

  /** What the steps lead to on the "after" side. */
  predicate StaysAfter(s: Sys, t: Sys, d: nat)
    requires d in s.calls
  {
    var h := s.calls[d].oldHash;
    && d in t.calls && t.calls[d].oldHash == h && t.log == s.log && t.now == s.now
    && ReadAfter(t.log, t.now, t.calls[d])
    && (t.rows != s.rows ==> GraceOver(s.log, s.now, h))
  }

  lemma ExpiryAfter(s: Sys, d: nat)
    requires d in s.calls && ReadAfter(s.log, s.now, s.calls[d])
    ensures StaysAfter(s, Next(s, CheckExpiry(d)), d)
  {
  }

  lemma DecideAfter(s: Sys, d: nat, newHash: string, ttl: int)
    requires d in s.calls && ReadAfter(s.log, s.now, s.calls[d])
    requires HasRead(s.calls[d].phase) ==> s.calls[d].phase.row.updatedAt == Some(s.log.consumedAt[s.calls[d].oldHash])
    ensures StaysAfter(s, Next(s, CheckConsumed(d, newHash, ttl)), d)
  {
  }

  lemma WipeAfter(s: Sys, d: nat)
    requires d in s.calls && ReadAfter(s.log, s.now, s.calls[d])
    ensures StaysAfter(s, Next(s, Wipe(d)), d)
  {
    hide DeleteAll;
  }

  /** The call's own steps on the "after" side. */
  lemma OwnStepAfter(s: Sys, e: Event, d: nat)
    requires d in s.calls && IsStepOf(e, d) && ReadAfter(s.log, s.now, s.calls[d])
    requires HasRead(s.calls[d].phase) ==> s.calls[d].phase.row.updatedAt == Some(s.log.consumedAt[s.calls[d].oldHash])
    ensures StaysAfter(s, Next(s, e), d)
  {
    hide Next;
    match e
    case CheckExpiry(_) => ExpiryAfter(s, d);
    case CheckConsumed(_, newHash, ttl) => DecideAfter(s, d, newHash, ttl);
    case Wipe(_) => WipeAfter(s, d);
    case ReadRow(_) => ReadIdle(s, d);
    case Replace(_, id) => ReplaceIdle(s, d, id);
    case LookupUser(_) => LookupIdle(s, d);
  }

  lemma ConsumedIsSpent(s: Sys, hash: string)
    requires Inv(s) && hash in s.log.consumedAt
    ensures Spent(s, hash)
  {
    assert hash in s.rows ==> RowInv(s.log, hash, s.rows[hash]);
  }

  /** A spent token stays spent. */
  lemma SpentStays(s: Sys, e: Event, hash: string)
    requires Inv(s) && Spent(s, hash)
    ensures Spent(Next(s, e), hash)
  {
    assert TokenInv(s.log, hash);
    hide Inv, Next;
    HistoryGrows(s, e);
    if Usable(Next(s, e).rows, hash) {
      UsableBefore(s, e, hash);
    }
  }

  /** What a call knows of the row it has read. */
  lemma RowRead(s: Sys, d: nat)
    requires Inv(s) && d in s.calls && HasRead(s.calls[d].phase)
    ensures var row, h := s.calls[d].phase.row, s.calls[d].oldHash;
            && h in s.log.family && OwnerOf(s.log, FamilyOf(s.log, h)) == Some(row.userID)
            && (row.isConsumed ==> h in s.log.consumedAt && row.updatedAt == Some(s.log.consumedAt[h]))
            && (s.calls[d].phase.Replacing? ==> !row.isConsumed)
  {
    assert CallInv(s.log, d, s.calls[d]);
  }

  lemma BeforeStep(s: Sys, e: Event, d: nat)
    requires Inv(s) && d in s.calls && ReadBefore(s.calls[d]) && Spent(s, s.calls[d].oldHash)
    ensures var t := Next(s, e);
            && d in t.calls && t.calls[d].oldHash == s.calls[d].oldHash && ReadBefore(t.calls[d])
            && (t.calls[d].phase == Done(Refused(ErrRefreshSession)) ==>
                 t.calls[d] == s.calls[d] || (e == Wipe(d) && s.calls[d].phase.Wiping?))
  {
    hide Next, Inv;
    if IsStepOf(e, d) {
      OwnStepBefore(s, e, d);
    } else {
      OthersLeaveCall(s, e, d);
    }
  }

  lemma AfterStep(s: Sys, e: Event, d: nat)
    requires Inv(s) && d in s.calls && ReadAfter(s.log, s.now, s.calls[d])
    ensures var t := Next(s, e);
            d in t.calls && t.calls[d].oldHash == s.calls[d].oldHash && ReadAfter(t.log, t.now, t.calls[d])
  {
    hide Next, Inv;
    if IsStepOf(e, d) {
      if HasRead(s.calls[d].phase) {
        RowRead(s, d);
      }
      hide ReadAfter;
      OwnStepAfter(s, e, d);
    } else {
      OthersLeaveCall(s, e, d);
      HistoryGrows(s, e);
      TimePasses(s, e);
      hide IsStepOf;
      AfterLater(s.log, s.now, Next(s, e).log, Next(s, e).now, s.calls[d]);
    }
  }

  lemma AfterLater(log: Log, now: int, log': Log, now': int, c: Call)
    requires ReadAfter(log, now, c) && Extends(log, log') && now <= now'
    ensures ReadAfter(log', now', c)
  {
  }

  lemma {:induction false} HistoryOverRun(s: Sys, es: seq<Event>)
    requires Inv(s)
    ensures Extends(s.log, Run(s, es).log)
  {
    if es != [] {
      HistoryOverRun(s, es[..|es| - 1]);
      InvThroughout(s, es[..|es| - 1]);
      HistoryGrows(Run(s, es[..|es| - 1]), es[|es| - 1]);
    }
  }

  /** No family that the user had in the given history is alive. */
  ghost predicate Ended(s: Sys, log: Log, userID: Uuid) {
    forall f :: OwnerOf(log, f) == Some(userID) ==> !Alive(s, f)
  }

  lemma EndedStays(s: Sys, e: Event, log: Log, userID: Uuid)
    requires Inv(s) && Extends(log, s.log) && Ended(s, log, userID)
    ensures Ended(Next(s, e), log, userID)
  {
    hide Inv, Next, Alive;
    forall f | OwnerOf(log, f) == Some(userID)
      ensures !Alive(Next(s, e), f)
    {
      DeadStaysDead(s, e, f);
    }
  }

  lemma WipeEnds(s: Sys, d: nat, log: Log, userID: Uuid)
    requires Inv(s) && Extends(log, s.log)
    requires d in s.calls && s.calls[d].phase.Wiping? && s.calls[d].phase.userID == userID
    ensures Ended(Next(s, Wipe(d)), log, userID)
  {
    hide Inv, Next, Alive;
    forall f | OwnerOf(log, f) == Some(userID)
      ensures !Alive(Next(s, Wipe(d)), f)
    {
      WipeExact(s, d, [], f);
    }
  }

  lemma {:induction false} BeforeThroughout(s: Sys, es: seq<Event>, d: nat, userID: Uuid)
    requires Inv(s) && d in s.calls && HasRead(s.calls[d].phase) && ReadBefore(s.calls[d])
    requires Spent(s, s.calls[d].oldHash) && userID == s.calls[d].phase.row.userID
    ensures var t := Run(s, es);
            && d in t.calls && t.calls[d].oldHash == s.calls[d].oldHash && ReadBefore(t.calls[d])
            && Spent(t, s.calls[d].oldHash)
            && (t.calls[d].phase == Done(Refused(ErrRefreshSession)) ==> Ended(t, s.log, userID))
  {
    if es != [] {
      var init, e := es[..|es| - 1], es[|es| - 1];
      var u := Run(s, init);
      BeforeThroughout(s, init, d, userID);
      InvThroughout(s, init);
      HistoryOverRun(s, init);
      RowRead(s, d);
      assert CallInv(u.log, d, u.calls[d]);
      hide Inv, Next, Alive, Ended, Spent;
      BeforeStep(u, e, d);
      SpentStays(u, e, s.calls[d].oldHash);
      if u.calls[d].phase == Done(Refused(ErrRefreshSession)) {
        EndedStays(u, e, s.log, userID);
      } else if e == Wipe(d) && u.calls[d].phase.Wiping? {
        WipeEnds(u, d, s.log, userID);
      }
    }
  }

  lemma {:induction false} AfterThroughout(s: Sys, es: seq<Event>, d: nat)
    requires Inv(s) && d in s.calls && ReadAfter(s.log, s.now, s.calls[d])
    ensures var t := Run(s, es);
            && d in t.calls && t.calls[d].oldHash == s.calls[d].oldHash && ReadAfter(t.log, t.now, t.calls[d])
  {
    if es != [] {
      AfterThroughout(s, es[..|es| - 1], d);
      InvThroughout(s, es[..|es| - 1]);
      hide Inv, Next;
      AfterStep(Run(s, es[..|es| - 1]), es[|es| - 1], d);
    }
  }

  function ReplyTo(s: Sys, call: nat): Option<Outcome> {
    if call in s.calls && s.calls[call].phase.Done? then Some(s.calls[call].phase.outcome) else None
  }

  /** Where a call with a spent token can be, at every moment of every run. */
  lemma SpentSides(s: Sys, es: seq<Event>, d: nat)
    requires Inv(s) && d in s.calls && HasRead(s.calls[d].phase) && Spent(s, s.calls[d].oldHash)
    ensures var row, t := s.calls[d].phase.row, Run(s, es);
            && d in t.calls && t.calls[d].oldHash == s.calls[d].oldHash && Spent(t, s.calls[d].oldHash)
            && (if row.isConsumed then ReadAfter(t.log, t.now, t.calls[d]) else ReadBefore(t.calls[d]))
            && (!row.isConsumed && t.calls[d].phase == Done(Refused(ErrRefreshSession)) ==> Ended(t, s.log, row.userID))
  {
    RowRead(s, d);
    hide Inv, Run, Ended;
    if s.calls[d].phase.row.isConsumed {
      AfterThroughout(s, es, d);
      InvThroughout(s, es);
      ConsumedIsSpent(Run(s, es), s.calls[d].oldHash);
    } else {
      BeforeThroughout(s, es, d, s.calls[d].phase.row.userID);
    }
  }

  /** What a refresh with a spent token does, exactly, over every run. A call has read a
      token that has since, or before, been consumed or deleted, and anything may happen
      before it finishes. It never gets a pair. Unless it finds the token expired, it is
      told that the refresh failed if and only if it read the row unconsumed, and then no
      family the user had is alive any more; if it read the row consumed and finishes
      within the grace period of the consumption, it is told to retry. */
  lemma RetryIff(s: Sys, es: seq<Event>, d: nat)
    requires Inv(s) && d in s.calls && HasRead(s.calls[d].phase) && Spent(s, s.calls[d].oldHash)
    ensures var row, h, t := s.calls[d].phase.row, s.calls[d].oldHash, Run(s, es);
            var reply := ReplyTo(t, d);
            && d in t.calls && !Succeeded(t.calls[d])
            && (reply.Some? && reply != Some(Refused(ErrTokenExpired)) ==>
                 && reply.value.Refused?
                 && (reply == Some(Refused(ErrRefreshSession)) <==> !row.isConsumed)
                 && (!row.isConsumed ==> Ended(t, s.log, row.userID))
                 && (h in s.log.consumedAt && t.now < s.log.consumedAt[h] + GRACE ==>
                      (reply == Some(Refused(ErrTokenGracePeriod)) <==> row.isConsumed)))
  {
    SpentSides(s, es, d);
    RowRead(s, d);
    hide Inv, Next, Run, Ended;
    HistoryOverRun(s, es);
  }

  /** Which of its steps can do harm, at every moment of every run: none but the wipe of a
      call that read the row unconsumed, or of any call once the grace period is over. And
      a transaction with a spent token always leads to the wipe. */
  lemma RetryStep(s: Sys, es: seq<Event>, d: nat, e: Event)
    requires Inv(s) && d in s.calls && HasRead(s.calls[d].phase) && Spent(s, s.calls[d].oldHash)
    requires IsStepOf(e, d)
    ensures var row, h, t := s.calls[d].phase.row, s.calls[d].oldHash, Run(s, es);
            && (row.isConsumed && Next(t, e).rows != t.rows ==>
                 h in s.log.consumedAt && s.log.consumedAt[h] + GRACE <= t.now)
            && (!row.isConsumed && Next(t, e).rows != t.rows ==> e.Wipe?)
            && d in t.calls && d in Next(t, e).calls
            && (e.Replace? && t.calls[d].phase.Replacing? ==> !row.isConsumed && Next(t, e).calls[d].phase.Wiping?)
  {
    var t := Run(s, es);
    SpentSides(s, es, d);
    HistoryOverRun(s, es);
    InvThroughout(s, es);
    RowRead(s, d);
    if HasRead(t.calls[d].phase) {
      RowRead(t, d);
    }
    hide Inv, Next, Run;
    if s.calls[d].phase.row.isConsumed {
      OwnStepAfter(t, e, d);
    } else {
      OwnStepBefore(t, e, d);
    }
  }

  /** The grace period covers only retries that read the token after it was consumed. Of
      two calls that both read it unconsumed, once the first has got its new token, the
      second can only expire or end, whatever happens in between, with every family that
      the user had dead, that of the first call's new token included. */
  lemma ConcurrentRetryWipes(s: Sys, es: seq<Event>, c: nat, d: nat)
    requires Inv(s) && c in s.calls && Succeeded(s.calls[c])
    requires d in s.calls && HasRead(s.calls[d].phase) && !s.calls[d].phase.row.isConsumed
    requires s.calls[d].oldHash == s.calls[c].oldHash
    ensures var t := Run(s, es);
            && d in t.calls && !Succeeded(t.calls[d])
            && (ReplyTo(t, d).Some? && ReplyTo(t, d) != Some(Refused(ErrTokenExpired)) ==>
                 && ReplyTo(t, d) == Some(Refused(ErrRefreshSession))
                 && !Alive(t, FamilyOf(s.log, s.calls[c].oldHash))
                 && Ended(t, s.log, s.calls[d].phase.row.userID))
  {
    assert CallInv(s.log, c, s.calls[c]);
    RowRead(s, d);
    ConsumedIsSpent(s, s.calls[d].oldHash);
    hide Inv, Run, Alive, Spent;
    RetryIff(s, es, d);
  }

  /* ---------- rows that go away under a call ---------- */

  predicate GetsThrough(s: Sys, d: nat) {
    d in s.calls && Succeeded(s.calls[d])
  }

  /** Some continuation lets the call have its new token. */
  ghost predicate CanGetThrough(s: Sys, d: nat) {
    exists es :: GetsThrough(Run(s, es), d)
  }

  /** A call on the point of its transaction can still get a pair if and only if its token
      can still be consumed. */
  lemma CanGetThroughIff(s: Sys, d: nat, id: Uuid)
    requires Inv(s) && d in s.calls && s.calls[d].phase.Replacing?
    requires Insertable(Consume(s.rows, s.calls[d].oldHash, s.now), s.calls[d].phase.newHash, id)
    ensures CanGetThrough(s, d) <==> Usable(s.rows, s.calls[d].oldHash)
  {
    if Usable(s.rows, s.calls[d].oldHash) {
      RunOne(s, Replace(d, id));
      ReplaceIsCommit(s, d, id);
      hide Run, Next;
      assert GetsThrough(Run(s, [Replace(d, id)]), d);
    } else {
      RowRead(s, d);
      hide Inv, Run, Next, Usable;
      forall es
        ensures !GetsThrough(Run(s, es), d)
      {
        RetryIff(s, es, d);
      }
    }
  }

  /** The statements that take rows, or their use, away. */
  predicate TakesAway(e: Event) {
    e.Logout? || e.Revoke? || e.RevokeOthers? || e.RemoveUser? || e.RunCleanup?
  }

  /** Whether such a statement leaves the token as it was. */
  predicate Spares(e: Event, now: int, row: Token)
    requires TakesAway(e)
  {
    match e
    case Logout(hash) => hash != row.hash
    case Revoke(id, userID) => !(id == row.id && userID == row.userID)
    case RevokeOthers(userID, hash) => userID != row.userID || hash == row.hash
    case RemoveUser(userID) => userID != row.userID
    case RunCleanup => row.expiresAt >= now
  }

  lemma TakenAway(s: Sys, e: Event, h: string)
    requires TakesAway(e) && (h in s.rows ==> s.rows[h].hash == h)
    ensures Usable(Next(s, e).rows, h) <==> Usable(s.rows, h) && Spares(e, s.now, s.rows[h])
  {
  }

  lemma RowsLeft(s: Sys, e: Event)
    requires TakesAway(e)
    ensures forall k :: k in Next(s, e).rows ==> k in s.rows && Next(s, e).rows[k].id == s.rows[k].id
    ensures Next(s, e).now == s.now
  {
  }

  /** No such statement takes an id or a hash. */
  lemma StillInsertable(s: Sys, e: Event, h: string, newHash: string, id: Uuid)
    requires TakesAway(e) && Insertable(Consume(s.rows, h, s.now), newHash, id)
    ensures Insertable(Consume(Next(s, e).rows, h, Next(s, e).now), newHash, id)
  {
    RowsLeft(s, e);
    hide Next;
    var consumed := Consume(s.rows, h, s.now);
    assert forall k :: k in s.rows ==> k in consumed && consumed[k].id == s.rows[k].id;
  }

  lemma RowNamesItself(s: Sys, h: string)
    requires Inv(s) && h in s.rows
    ensures s.rows[h].hash == h
  {
    assert RowInv(s.log, h, s.rows[h]);
  }

  lemma RaceCan(s: Sys, e: Event, d: nat, id: Uuid)
    requires Inv(s) && d in s.calls && s.calls[d].phase.Replacing? && TakesAway(e)
    requires Insertable(Consume(s.rows, s.calls[d].oldHash, s.now), s.calls[d].phase.newHash, id)
    ensures var h, s' := s.calls[d].oldHash, Next(s, e);
            && Inv(s') && d in s'.calls && s'.calls[d] == s.calls[d]
            && (CanGetThrough(s', d) <==> Usable(s'.rows, h))
            && (Usable(s'.rows, h) <==> Usable(s.rows, h) && Spares(e, s.now, s.rows[h]))
  {
    var h := s.calls[d].oldHash;
    hide Inv, Next, Insertable, Consume, CanGetThrough, Spares;
    NextKeepsInv(s, e);
    OthersLeaveCall(s, e, d);
    if h in s.rows {
      RowNamesItself(s, h);
    }
    TakenAway(s, e, h);
    StillInsertable(s, e, h, s.calls[d].phase.newHash, id);
    CanGetThroughIff(Next(s, e), d, id);
  }

  lemma RaceEnds(s: Sys, e: Event, d: nat, es: seq<Event>)
    requires Inv(s) && Inv(Next(s, e)) && d in s.calls && s.calls[d].phase.Replacing?
    requires d in Next(s, e).calls && Next(s, e).calls[d] == s.calls[d] && !Usable(Next(s, e).rows, s.calls[d].oldHash)
    ensures var t := Run(Next(s, e), es);
            ReplyTo(t, d).Some? ==>
              || ReplyTo(t, d) == Some(Refused(ErrTokenExpired))
              || (ReplyTo(t, d) == Some(Refused(ErrRefreshSession)) && Ended(t, s.log, s.calls[d].phase.row.userID))
  {
    hide Inv, Next, Run, Usable, Alive;
    RowRead(s, d);
    HistoryGrows(s, e);
    RetryIff(Next(s, e), es, d);
  }

  /** What logging out, revoking, deleting or cleaning up does to a refresh on the point of
      its transaction, over every run: the call can still get its pair if and only if its
      token could be consumed before and the statement spared it. Otherwise, however the
      run goes on, the call ends expired or with no family that the user had alive, the
      sessions that the statement was to keep included. */
  lemma RaceIff(s: Sys, e: Event, d: nat, id: Uuid, es: seq<Event>)
    requires Inv(s) && d in s.calls && s.calls[d].phase.Replacing? && TakesAway(e)
    requires Insertable(Consume(s.rows, s.calls[d].oldHash, s.now), s.calls[d].phase.newHash, id)
    ensures var h, userID := s.calls[d].oldHash, s.calls[d].phase.row.userID;
            var t := Run(Next(s, e), es);
            && (CanGetThrough(Next(s, e), d) <==> Usable(s.rows, h) && Spares(e, s.now, s.rows[h]))
            && (!CanGetThrough(Next(s, e), d) && ReplyTo(t, d).Some? ==>
                 || ReplyTo(t, d) == Some(Refused(ErrTokenExpired))
                 || (ReplyTo(t, d) == Some(Refused(ErrRefreshSession)) && Ended(t, s.log, userID)))
  {
    hide Inv, Next, Run, Insertable, Consume, Usable, CanGetThrough, Spares, Ended;
    RaceCan(s, e, d, id);
    if !Usable(Next(s, e).rows, s.calls[d].oldHash) {
      RaceEnds(s, e, d, es);
    }
  }

  /** A cleanup between a call's expiry check and its transaction, with anything before and
      after: it takes the pair away if and only if the token has expired in the meantime,
      and the transaction, whenever it comes, then leads to the wipe. */
  lemma CleanupRaceIff(s: Sys, d: nat, id: Uuid, id': Uuid, es: seq<Event>)
    requires Inv(s) && d in s.calls && s.calls[d].phase.Replacing? && Usable(s.rows, s.calls[d].oldHash)
    requires Insertable(Consume(s.rows, s.calls[d].oldHash, s.now), s.calls[d].phase.newHash, id)
    ensures var h := s.calls[d].oldHash;
            var t := Run(Next(s, RunCleanup), es);
            && (CanGetThrough(Next(s, RunCleanup), d) <==> s.rows[h].expiresAt >= s.now)
            && d in t.calls && d in Next(t, Replace(d, id')).calls
            && (s.rows[h].expiresAt < s.now && t.calls[d].phase.Replacing? ==>
                 Next(t, Replace(d, id')).calls[d].phase.Wiping?)
            && (s.rows[h].expiresAt < s.now && ReplyTo(t, d).Some? ==>
                 ReplyTo(t, d) == Some(Refused(ErrTokenExpired)) || Ended(t, s.log, s.calls[d].phase.row.userID))
  {
    var h := s.calls[d].oldHash;
    var s' := Next(s, RunCleanup);
    RaceIff(s, RunCleanup, d, id, es);
    RowRead(s, d);
    assert RowInv(s.log, h, s.rows[h]);
    TakenAway(s, RunCleanup, h);
    hide Inv, Next, Run, Insertable, Consume, CanGetThrough, Alive;
    NextKeepsInv(s, RunCleanup);
    HistoryGrows(s, RunCleanup);
    OthersLeaveCall(s, RunCleanup, d);
    CallsStay(s', es, d);
    CallsStay(Run(s', es), [Replace(d, id')], d);
    RunOne(Run(s', es), Replace(d, id'));
    if s.rows[h].expiresAt < s.now {
      RetryStep(s', es, d, Replace(d, id'));
    }
  }

  lemma {:induction false} CallsStay(s: Sys, es: seq<Event>, d: nat)
    requires d in s.calls
    ensures d in Run(s, es).calls
  {
    if es != [] {
      CallsStay(s, es[..|es| - 1], d);
      CallStays(Run(s, es[..|es| - 1]), es[|es| - 1], d);
    }
  }

  lemma CallStays(s: Sys, e: Event, d: nat)
    requires d in s.calls
    ensures d in Next(s, e).calls
  {
    hide DeleteByID, DeleteOther, DeleteAll, Cleanup, Insertable, Consume, Usable, FamilyOf;
  }

  /** Revoking the other sessions while one of them is being refreshed: the session that is
      to be kept does not survive the refresh. Whatever else happens, once that call ends
      other than expired, the kept session's family is dead. */
  lemma RevokeOthersRace(s: Sys, userID: Uuid, kept: string, d: nat, id: Uuid, es: seq<Event>)
    requires Inv(s) && d in s.calls && s.calls[d].phase.Replacing? && s.calls[d].phase.row.userID == userID
    requires Insertable(Consume(s.rows, s.calls[d].oldHash, s.now), s.calls[d].phase.newHash, id)
    requires Usable(s.rows, kept) && s.rows[kept].userID == userID && kept != s.calls[d].oldHash
    ensures var s' := Next(s, RevokeOthers(userID, kept));
            var t := Run(s', es);
            && Alive(s', FamilyOf(s.log, kept)) && !CanGetThrough(s', d)
            && (ReplyTo(t, d).Some? && ReplyTo(t, d) != Some(Refused(ErrTokenExpired)) ==>
                 !Alive(t, FamilyOf(s.log, kept)))
  {
    var e := RevokeOthers(userID, kept);
    var h := s.calls[d].oldHash;
    RowRead(s, d);
    assert RowInv(s.log, kept, s.rows[kept]) && (h in s.rows ==> RowInv(s.log, h, s.rows[h]));
    assert Alive(s, FamilyOf(s.log, kept));
    assert h in s.rows ==> !Spares(e, s.now, s.rows[h]);
    hide Inv, Next, Run, Insertable, Consume, CanGetThrough, Alive, Spares;
    RaceIff(s, e, d, id, es);
    RevokeOthersExact(s, userID, kept, [], FamilyOf(s.log, kept));
  }

  /* ---------- with nothing in between ---------- */

  lemma LaterReplaceWipes(s: Sys, d: nat, id: Uuid)
    requires d in s.calls && s.calls[d].phase.Replacing? && !Usable(s.rows, s.calls[d].oldHash)
    ensures var userID := s.calls[d].phase.row.userID;
            var t := Next(Next(s, Replace(d, id)), Wipe(d));
            t.calls == s.calls[d := s.calls[d].(phase := Done(Refused(ErrRefreshSession)))]
            && t.rows == DeleteAll(s.rows, userID) && t.now == s.now
  {
    assert Next(s, Replace(d, id)) == Advance(s, d, Wiping(s.calls[d].phase.row.userID, ErrRefreshSession));
  }

  lemma DoneStays(s: Sys, d: nat, id: Uuid)
    requires d in s.calls && s.calls[d].phase.Done?
    ensures Next(s, Replace(d, id)) == s && Next(s, Wipe(d)) == s
  {
  }

  /** And the remaining steps of such a call, taken one after another within the grace
      period, do end it: refused with no row changed if it read the row after the
      consumption, and with all the user's rows deleted if it read the row before. */
  lemma RetryExact(s: Sys, d: nat, newHash: string, ttl: int, id: Uuid)
    requires Inv(s) && d in s.calls && s.calls[d].phase.Unexpired? && newHash !in s.log.minted
    requires s.calls[d].oldHash in s.log.consumedAt && s.now < s.log.consumedAt[s.calls[d].oldHash] + GRACE
    ensures var row := s.calls[d].phase.row;
            var t := Next(Next(Next(s, CheckConsumed(d, newHash, ttl)), Replace(d, id)), Wipe(d));
            && t.rows == (if row.isConsumed then s.rows else DeleteAll(s.rows, row.userID))
            && d in t.calls
            && t.calls[d].phase == Done(Refused(if row.isConsumed then ErrTokenGracePeriod else ErrRefreshSession))
  {
    var row := s.calls[d].phase.row;
    assert CallInv(s.log, d, s.calls[d]);
    ConsumedIsSpent(s, s.calls[d].oldHash);
    var s1 := Next(s, CheckConsumed(d, newHash, ttl));
    if row.isConsumed {
      assert s1 == Advance(s, d, Done(Refused(ErrTokenGracePeriod)));
      hide Inv, Next;
      DoneStays(s1, d, id);
    } else {
      assert s1 == Advance(s.(log := Choose(s.log, newHash, d)), d, Replacing(row, newHash, s.now + ttl));
      hide Inv, Next;
      LaterReplaceWipes(s1, d, id);
    }
  }
}
