/** Refresh-token rotation as a concurrent protocol: any number of refresh calls, each
    somewhere between its first read and its reply, interleaved with logins, logouts,
    revocations, cleanups and the clock. Each statement or transaction is one step. */
module SessionProtocol {
  import opened Wrappers
  import opened Uuids
  import opened TokenTable

  const GRACE: int := 5 * SECOND

  datatype Refusal = ErrRefreshSession | ErrTokenExpired | ErrTokenGracePeriod | ErrTokenConsumed

  datatype Outcome = Pair(refresh: string) | Refused(why: Refusal)

  /** Where a refresh call stands. A row held here is the row as the call read it. */
  datatype Phase =
    | Began
    | Found(row: Token)
    | Unexpired(row: Token)
    | Replacing(row: Token, newHash: string, expiresAt: int)
    | Wiping(userID: Uuid, why: Refusal)
    | Replaced(userID: Uuid, newHash: string)
    | Done(outcome: Outcome)

  datatype Call = Call(oldHash: string, phase: Phase)

  /** History that no step depends on, except that new token texts are fresh: `minted`
      holds every token text generated so far, and `chosenBy` the call that generated it
      for a replacement; `family` maps a stored token to the login it descends from, named
      by the token that login issued, `owner` a family to its user and `latest` a family
      to its newest token; `consumedAt` dates first consumptions, and `winner` names the
      call that replaced a token. */
  datatype Log = Log(
    minted: set<string>,
    chosenBy: map<string, nat>,
    family: map<string, string>,
    owner: map<string, Uuid>,
    latest: map<string, string>,
    consumedAt: map<string, int>,
    winner: map<string, nat>)

  /** The rows, the clock, the calls, the users a lookup finds, and the history. */
  datatype Sys = Sys(rows: Table, now: int, calls: map<nat, Call>, availableUsers: set<Uuid>, log: Log)

  datatype Event =
    | Login(hash: string, id: Uuid, userID: Uuid, expiresAt: int)
    | Logout(hash: string)
    | Revoke(id: Uuid, userID: Uuid)
    | RevokeOthers(userID: Uuid, hash: string)
    | RemoveUser(userID: Uuid)
    | RunCleanup
    | Tick(to: int)
    | ChangeUsers(available: set<Uuid>)
    | Begin(call: nat, hash: string)
    | ReadRow(call: nat)
    | CheckExpiry(call: nat)
    | CheckConsumed(call: nat, newHash: string, ttl: int)
    | Replace(call: nat, id: Uuid)
    | Wipe(call: nat)
    | LookupUser(call: nat)

  function Advance(s: Sys, call: nat, phase: Phase): Sys
    requires call in s.calls
  {
    s.(calls := s.calls[call := s.calls[call].(phase := phase)])
  }

  function ConsumeStep(s: Sys, hash: string): Sys {
    if Usable(s.rows, hash) then
      s.(rows := Consume(s.rows, hash, s.now), log := s.log.(consumedAt := s.log.consumedAt[hash := s.now]))
    else s
  }

  /** The call consumes the token and is recorded as the one that replaced it. */
  function Won(s: Sys, call: nat, h: string): Sys {
    var c := ConsumeStep(s, h);
    c.(log := c.log.(winner := c.log.winner[h := call]))
  }

  function Mint(log: Log, hash: string): Log {
    log.(minted := log.minted + {hash})
  }

  function Choose(log: Log, hash: string, call: nat): Log {
    Mint(log, hash).(chosenBy := log.chosenBy[hash := call])
  }

  /** What the call decides about the row it read, once that has not expired. */
  function Decide(s: Sys, call: nat, row: Token, newHash: string, ttl: int): Sys
    requires call in s.calls
  {
    if row.isConsumed then
      if row.updatedAt.Some? && s.now - row.updatedAt.value < GRACE then
        Advance(s, call, Done(Refused(ErrTokenGracePeriod)))
      else Advance(s, call, Wiping(row.userID, Refusal.ErrTokenConsumed))
    else if newHash in s.log.minted then s
    else Advance(s.(log := Choose(s.log, newHash, call)), call, Replacing(row, newHash, s.now + ttl))
  }

  /** The transaction: consume and insert, or neither. */
  function ReplaceStep(s: Sys, call: nat, p: Phase, id: Uuid): Sys
    requires call in s.calls && p.Replacing?
  {
    var oldHash := s.calls[call].oldHash;
    if !Usable(s.rows, oldHash) then
      Advance(s, call, Wiping(p.row.userID, ErrRefreshSession))
    else if !Insertable(Consume(s.rows, oldHash, s.now), p.newHash, id) then
      Advance(s, call, Done(Refused(ErrRefreshSession)))
    else
      var row := NewToken(p.newHash, id, p.row.userID, p.expiresAt, s.now);
      var t := Stored(Won(s, call, oldHash), p.newHash, FamilyOf(s.log, oldHash), row);
      Advance(t, call, Replaced(p.row.userID, p.newHash))
  }

  function FamilyOf(log: Log, hash: string): string {
    if hash in log.family then log.family[hash] else hash
  }

  /** A row is stored as the newest token of a family. */
  function Stored(s: Sys, hash: string, family: string, row: Token): Sys {
    s.(rows := s.rows[hash := row],
       log := s.log.(family := s.log.family[hash := family], owner := s.log.owner[family := row.userID],
                     latest := s.log.latest[family := hash]))
  }

  /** Steps whose guard does not hold leave the system as it is. */
  function Next(s: Sys, e: Event): Sys {
    match e
    case Login(hash, id, userID, expiresAt) =>
      if hash in s.log.minted || !Insertable(s.rows, hash, id) then s else
        Stored(s.(log := Mint(s.log, hash)), hash, hash, NewToken(hash, id, userID, expiresAt, s.now))
    case Logout(hash) => ConsumeStep(s, hash)
    case Revoke(id, userID) => s.(rows := DeleteByID(s.rows, id, userID))
    case RevokeOthers(userID, hash) => s.(rows := DeleteOther(s.rows, userID, hash))
    case RemoveUser(userID) => s.(rows := DeleteAll(s.rows, userID))
    case RunCleanup => s.(rows := Cleanup(s.rows, s.now))
    case Tick(to) => if to < s.now then s else s.(now := to)
    case ChangeUsers(available) => s.(availableUsers := available)
    case Begin(call, hash) => if call in s.calls then s else s.(calls := s.calls[call := Call(hash, Began)])
    case ReadRow(call) =>
      if call !in s.calls || !s.calls[call].phase.Began? then s else
        var h := s.calls[call].oldHash;
        Advance(s, call, if h in s.rows then Found(s.rows[h]) else Done(Refused(ErrRefreshSession)))
    case CheckExpiry(call) =>
      if call !in s.calls || !s.calls[call].phase.Found? then s else
        var row := s.calls[call].phase.row;
        Advance(s, call, if row.expiresAt < s.now then Done(Refused(ErrTokenExpired)) else Unexpired(row))
    case CheckConsumed(call, newHash, ttl) =>
      if call !in s.calls || !s.calls[call].phase.Unexpired? then s
      else Decide(s, call, s.calls[call].phase.row, newHash, ttl)
    case Replace(call, id) =>
      if call !in s.calls || !s.calls[call].phase.Replacing? then s
      else ReplaceStep(s, call, s.calls[call].phase, id)
    case Wipe(call) =>
      if call !in s.calls || !s.calls[call].phase.Wiping? then s else
        var p := s.calls[call].phase;
        Advance(s.(rows := DeleteAll(s.rows, p.userID)), call, Done(Refused(p.why)))
    case LookupUser(call) =>
      if call !in s.calls || !s.calls[call].phase.Replaced? then s else
        var p := s.calls[call].phase;
        Advance(s, call, Done(if p.userID in s.availableUsers then Pair(p.newHash) else Refused(ErrRefreshSession)))
  }

  function Run(s: Sys, es: seq<Event>): Sys {
    if es == [] then s else Next(Run(s, es[..|es| - 1]), es[|es| - 1])
  }

  lemma RunOne(s: Sys, e: Event)
    ensures Run(s, [e]) == Next(s, e)
  {
    assert [e][..0] == [];
  }

  lemma RunSnoc(s: Sys, es: seq<Event>, e: Event)
    ensures Run(s, es + [e]) == Next(Run(s, es), e)
  {
    assert (es + [e])[..|es|] == es;
  }

  lemma {:induction false} RunConcat(s: Sys, a: seq<Event>, b: seq<Event>)
    ensures Run(s, a + b) == Run(Run(s, a), b)
    decreases |b|
  {
    hide Next;
    if b == [] {
      assert a + b == a;
    } else {
      RunConcat(s, a, b[..|b| - 1]);
      assert (a + b)[..|a + b| - 1] == a + b[..|b| - 1];
    }
  }

  /* ---------- the invariant ---------- */

  /** The call's transaction has gone through. */
  predicate Succeeded(c: Call) {
    c.phase.Replaced? || (c.phase.Done? && c.phase.outcome.Pair?)
  }

  predicate TokenInv(log: Log, h: string)
    requires h in log.family
  {
    && h in log.minted && log.family[h] in log.minted
    && log.family[h] in log.owner && log.family[h] in log.latest
  }

  /** Only the newest token of a family can be unconsumed; a consumed row carries the time
      of its first consumption. */
  predicate RowInv(log: Log, h: string, row: Token) {
    && row.hash == h && h in log.family && log.family[h] in log.owner && log.family[h] in log.latest
    && row.userID == log.owner[log.family[h]]
    && (if row.isConsumed then h in log.consumedAt && row.updatedAt == Some(log.consumedAt[h])
        else h !in log.consumedAt && log.latest[log.family[h]] == h)
  }

  /** What a call may rely on about the row it has read. */
  predicate SnapshotOf(log: Log, hash: string, row: Token) {
    && hash in log.family && log.family[hash] in log.owner && row.hash == hash
    && row.userID == log.owner[log.family[hash]]
    && (row.isConsumed ==> hash in log.consumedAt && row.updatedAt == Some(log.consumedAt[hash]))
  }

  predicate CallInv(log: Log, call: nat, c: Call) {
    match c.phase
    case Found(row) => SnapshotOf(log, c.oldHash, row)
    case Unexpired(row) => SnapshotOf(log, c.oldHash, row)
    case Replacing(row, newHash, _) =>
      && SnapshotOf(log, c.oldHash, row) && !row.isConsumed
      && newHash in log.minted && newHash !in log.family && newHash in log.chosenBy && log.chosenBy[newHash] == call
    case Wiping(userID, _) =>
      c.oldHash in log.family && log.family[c.oldHash] in log.owner && userID == log.owner[log.family[c.oldHash]]
    case _ =>
      Succeeded(c) ==> c.oldHash in log.consumedAt && c.oldHash in log.winner && log.winner[c.oldHash] == call
  }

  ghost predicate LogInv(log: Log, now: int) {
    && (forall h :: h in log.family ==> TokenInv(log, h))
    && (forall h :: h in log.chosenBy ==> h in log.minted)
    && (forall f :: f in log.owner ==> f in log.minted)
    && (forall h :: h in log.consumedAt ==> h in log.family && log.consumedAt[h] <= now)
  }

  ghost predicate RowsInv(log: Log, rows: Table) {
    forall h :: h in rows ==> RowInv(log, h, rows[h])
  }

  ghost predicate CallsInv(log: Log, calls: map<nat, Call>) {
    forall c :: c in calls ==> CallInv(log, c, calls[c])
  }

  ghost predicate Inv(s: Sys) {
    LogInv(s.log, s.now) && WellKeyed(s.rows) && RowsInv(s.log, s.rows) && CallsInv(s.log, s.calls)
  }

  lemma ConsumeKeepsInv(s: Sys, hash: string)
    requires Inv(s)
    ensures Inv(ConsumeStep(s, hash))
  {
    var s' := ConsumeStep(s, hash);
    if Usable(s.rows, hash) {
      assert RowInv(s.log, hash, s.rows[hash]);
      forall h | h in s'.rows
        ensures RowInv(s'.log, h, s'.rows[h])
      {
        assert RowInv(s.log, h, s.rows[h]);
      }
      forall c | c in s'.calls
        ensures CallInv(s'.log, c, s'.calls[c])
      {
        assert CallInv(s.log, c, s.calls[c]);
      }
      forall h | h in s'.log.family
        ensures TokenInv(s'.log, h)
      {
        assert TokenInv(s.log, h);
      }
    }
  }

  /** What a call relies on stays true while history only grows, unless it is the text the
      call chose that is being stored. */
  lemma LaterKeepsCall(log: Log, log': Log, call: nat, c: Call)
    requires CallInv(log, call, c) && Extends(log, log') && log.minted <= log'.minted
    requires forall h :: h in log.chosenBy ==> h in log'.chosenBy && log'.chosenBy[h] == log.chosenBy[h]
    requires forall h :: h in log.winner && h in log.consumedAt ==> h in log'.winner && log'.winner[h] == log.winner[h]
    requires c.phase.Replacing? ==> c.phase.newHash !in log'.family
    ensures CallInv(log', call, c)
  {
  }

  lemma StoreKeepsRows(s: Sys, hash: string, family: string, row: Token)
    requires RowsInv(s.log, s.rows) && hash !in s.log.family && hash !in s.log.consumedAt
    requires row.hash == hash && !row.isConsumed
    requires family in s.log.owner ==> s.log.owner[family] == row.userID
    requires forall h :: Usable(s.rows, h) ==> FamilyOf(s.log, h) != family
    ensures RowsInv(Stored(s, hash, family, row).log, Stored(s, hash, family, row).rows)
  {
    var s' := Stored(s, hash, family, row);
    forall h | h in s'.rows
      ensures RowInv(s'.log, h, s'.rows[h])
    {
      if h != hash {
        assert RowInv(s.log, h, s.rows[h]);
        assert !s.rows[h].isConsumed ==> Usable(s.rows, h);
      }
    }
  }

  lemma StoreKeepsLog(s: Sys, hash: string, family: string, row: Token)
    requires LogInv(s.log, s.now) && hash in s.log.minted && family in s.log.minted
    ensures LogInv(Stored(s, hash, family, row).log, s.now)
  {
    var log := Stored(s, hash, family, row).log;
    forall h | h in log.family
      ensures TokenInv(log, h)
    {
      assert h != hash ==> TokenInv(s.log, h);
    }
  }

  lemma StoreExtends(s: Sys, hash: string, family: string, row: Token)
    requires hash !in s.log.family && (family in s.log.owner ==> s.log.owner[family] == row.userID)
    ensures Extends(s.log, Stored(s, hash, family, row).log)
  {
  }

  /** A fresh token may be stored in a family that has no unconsumed row. */
  lemma StoreKeepsInv(s: Sys, hash: string, family: string, row: Token)
    requires Inv(s) && hash in s.log.minted && hash !in s.log.family && family in s.log.minted
    requires row.hash == hash && !row.isConsumed && Insertable(s.rows, hash, row.id)
    requires family in s.log.owner ==> s.log.owner[family] == row.userID
    requires forall h :: Usable(s.rows, h) ==> FamilyOf(s.log, h) != family
    requires forall c :: c in s.calls ==> !(s.calls[c].phase.Replacing? && s.calls[c].phase.newHash == hash)
    ensures Inv(Stored(s, hash, family, row))
  {
    StoreKeepsRows(s, hash, family, row);
    StoreKeepsLog(s, hash, family, row);
    hide RowInv, TokenInv, CallInv, RowsInv, LogInv, FamilyOf, Usable;
    StoreKeepsCalls(s, hash, family, row);
    hide CallsInv;
  }

  lemma StoreKeepsCalls(s: Sys, hash: string, family: string, row: Token)
    requires CallsInv(s.log, s.calls) && hash !in s.log.family
    requires family in s.log.owner ==> s.log.owner[family] == row.userID
    requires forall c :: c in s.calls ==> !(s.calls[c].phase.Replacing? && s.calls[c].phase.newHash == hash)
    ensures CallsInv(Stored(s, hash, family, row).log, Stored(s, hash, family, row).calls)
  {
    var log := Stored(s, hash, family, row).log;
    StoreExtends(s, hash, family, row);
    forall c | c in s.calls
      ensures CallInv(log, c, s.calls[c])
    {
      assert CallInv(s.log, c, s.calls[c]);
      LaterKeepsCall(s.log, log, c, s.calls[c]);
    }
  }

  /** The first consumption is the only one a winner can claim. */
  lemma WinKeepsInv(s: Sys, call: nat, h: string)
    requires Inv(s) && Usable(s.rows, h)
    ensures Inv(Won(s, call, h))
  {
    var c := ConsumeStep(s, h);
    var log := Won(s, call, h).log;
    ConsumeKeepsInv(s, h);
    assert RowInv(s.log, h, s.rows[h]);
    forall k | k in c.rows
      ensures RowInv(log, k, c.rows[k])
    {
      assert RowInv(c.log, k, c.rows[k]);
    }
    forall d | d in c.calls
      ensures CallInv(log, d, c.calls[d])
    {
      assert CallInv(s.log, d, s.calls[d]) && CallInv(c.log, d, c.calls[d]);
    }
    forall k | k in log.family
      ensures TokenInv(log, k)
    {
      assert TokenInv(c.log, k);
    }
  }

  lemma ReplaceKeepsInv(s: Sys, call: nat, id: Uuid)
    requires Inv(s) && call in s.calls && s.calls[call].phase.Replacing?
    ensures Inv(Next(s, Replace(call, id)))
  {
    var p, h := s.calls[call].phase, s.calls[call].oldHash;
    assert CallInv(s.log, call, s.calls[call]);
    if !Usable(s.rows, h) {
      AdvanceKeepsInv(s, call, Wiping(p.row.userID, ErrRefreshSession));
    } else if !Insertable(Consume(s.rows, h, s.now), p.newHash, id) {
      AdvanceKeepsInv(s, call, Done(Refused(ErrRefreshSession)));
    } else {
      CommitKeepsInv(s, call, id);
      hide Inv;
      ReplaceIsCommit(s, call, id);
    }
  }

  /** A transaction that goes through: the winning consumption, then the new row. */
  function Commit(s: Sys, call: nat, id: Uuid): Sys
    requires call in s.calls && s.calls[call].phase.Replacing?
  {
    var p, h := s.calls[call].phase, s.calls[call].oldHash;
    Stored(Advance(Won(s, call, h), call, Replaced(p.row.userID, p.newHash)), p.newHash, FamilyOf(s.log, h),
           NewToken(p.newHash, id, p.row.userID, p.expiresAt, s.now))
  }

  lemma ReplaceIsCommit(s: Sys, call: nat, id: Uuid)
    requires call in s.calls && s.calls[call].phase.Replacing? && Usable(s.rows, s.calls[call].oldHash)
    requires Insertable(Consume(s.rows, s.calls[call].oldHash, s.now), s.calls[call].phase.newHash, id)
    ensures Next(s, Replace(call, id)) == Commit(s, call, id)
  {
  }

  /** No two calls choose the same text. */
  lemma ChosenOnce(s: Sys, call: nat)
    requires Inv(s) && call in s.calls && s.calls[call].phase.Replacing?
    ensures forall d :: d in s.calls && d != call && s.calls[d].phase.Replacing? ==>
              s.calls[d].phase.newHash != s.calls[call].phase.newHash
  {
    hide RowInv, TokenInv;
    assert CallInv(s.log, call, s.calls[call]);
    forall d | d in s.calls && d != call && s.calls[d].phase.Replacing?
      ensures s.calls[d].phase.newHash != s.calls[call].phase.newHash
    {
      assert CallInv(s.log, d, s.calls[d]);
    }
  }

  /** Once the live token of a family is consumed, the family has none. */
  lemma NoOtherLive(s: Sys, h: string)
    requires Inv(s) && Usable(s.rows, h)
    ensures forall k :: Usable(Consume(s.rows, h, s.now), k) ==> FamilyOf(s.log, k) != FamilyOf(s.log, h)
  {
    hide CallInv, TokenInv;
    assert RowInv(s.log, h, s.rows[h]);
    forall k | Usable(Consume(s.rows, h, s.now), k)
      ensures FamilyOf(s.log, k) != FamilyOf(s.log, h)
    {
      assert RowInv(s.log, k, s.rows[k]) && k != h;
    }
  }

  lemma WonAdvances(s: Sys, call: nat)
    requires Inv(s) && call in s.calls && s.calls[call].phase.Replacing? && Usable(s.rows, s.calls[call].oldHash)
    ensures var p := s.calls[call].phase;
            Inv(Advance(Won(s, call, s.calls[call].oldHash), call, Replaced(p.row.userID, p.newHash)))
  {
    var p, h := s.calls[call].phase, s.calls[call].oldHash;
    assert CallInv(Won(s, call, h).log, call, s.calls[call].(phase := Replaced(p.row.userID, p.newHash)));
    hide Inv, CallInv;
    WinKeepsInv(s, call, h);
    AdvanceKeepsInv(Won(s, call, h), call, Replaced(p.row.userID, p.newHash));
  }

  lemma CommitKeepsInv(s: Sys, call: nat, id: Uuid)
    requires Inv(s) && call in s.calls && s.calls[call].phase.Replacing? && Usable(s.rows, s.calls[call].oldHash)
    requires Insertable(Consume(s.rows, s.calls[call].oldHash, s.now), s.calls[call].phase.newHash, id)
    ensures Inv(Commit(s, call, id))
  {
    var p, h := s.calls[call].phase, s.calls[call].oldHash;
    assert CallInv(s.log, call, s.calls[call]) && RowInv(s.log, h, s.rows[h]) && TokenInv(s.log, h);
    hide Inv, CallInv, RowInv, TokenInv, Insertable;
    WonAdvances(s, call);
    var w := Advance(Won(s, call, h), call, Replaced(p.row.userID, p.newHash));
    ChosenOnce(s, call);
    NoOtherLive(s, h);
    StoreKeepsInv(w, p.newHash, s.log.family[h], NewToken(p.newHash, id, p.row.userID, p.expiresAt, s.now));
  }

  lemma MintKeepsInv(s: Sys, hash: string, log: Log, call: nat)
    requires Inv(s) && hash !in s.log.minted && (log == Mint(s.log, hash) || log == Choose(s.log, hash, call))
    ensures Inv(s.(log := log))
  {
    forall h | h in s.rows
      ensures RowInv(log, h, s.rows[h])
    {
      assert RowInv(s.log, h, s.rows[h]);
    }
    forall h | h in log.family
      ensures TokenInv(log, h)
    {
      assert TokenInv(s.log, h);
    }
    MintKeepsCalls(s, hash, log, call);
    hide RowInv, TokenInv, CallsInv;
  }

  lemma MintKeepsCalls(s: Sys, hash: string, log: Log, call: nat)
    requires CallsInv(s.log, s.calls) && hash !in s.log.minted
    requires forall h :: h in s.log.chosenBy ==> h in s.log.minted
    requires log == Mint(s.log, hash) || log == Choose(s.log, hash, call)
    ensures CallsInv(log, s.calls)
  {
    assert Extends(s.log, log);
    hide Extends;
    forall c | c in s.calls
      ensures CallInv(log, c, s.calls[c])
    {
      assert CallInv(s.log, c, s.calls[c]);
      LaterKeepsCall(s.log, log, c, s.calls[c]);
    }
  }

  lemma LoginKeepsInv(s: Sys, hash: string, id: Uuid, userID: Uuid, expiresAt: int)
    requires Inv(s)
    ensures Inv(Next(s, Login(hash, id, userID, expiresAt)))
  {
    if hash !in s.log.minted && Insertable(s.rows, hash, id) {
      var m := s.(log := Mint(s.log, hash));
      MintKeepsInv(s, hash, m.log, 0);
      assert hash in s.log.family ==> TokenInv(s.log, hash);
      forall h | Usable(m.rows, h)
        ensures FamilyOf(m.log, h) != hash
      {
        assert RowInv(s.log, h, s.rows[h]) && TokenInv(s.log, h);
      }
      forall c | c in m.calls
        ensures !(m.calls[c].phase.Replacing? && m.calls[c].phase.newHash == hash)
      {
        assert CallInv(s.log, c, s.calls[c]);
      }
      StoreKeepsInv(m, hash, hash, NewToken(hash, id, userID, expiresAt, s.now));
    }
  }

  lemma DecideKeepsInv(s: Sys, call: nat, newHash: string, ttl: int)
    requires Inv(s) && call in s.calls && s.calls[call].phase.Unexpired?
    ensures Inv(Next(s, CheckConsumed(call, newHash, ttl)))
  {
    var row := s.calls[call].phase.row;
    assert CallInv(s.log, call, s.calls[call]);
    if row.isConsumed {
      assert CallInv(s.log, call, s.calls[call].(phase := Wiping(row.userID, Refusal.ErrTokenConsumed)));
      hide Inv, CallInv;
      AdvanceKeepsInv(s, call, Done(Refused(ErrTokenGracePeriod)));
      AdvanceKeepsInv(s, call, Wiping(row.userID, Refusal.ErrTokenConsumed));
    } else if newHash !in s.log.minted {
      var log := Choose(s.log, newHash, call);
      assert newHash in s.log.family ==> TokenInv(s.log, newHash);
      assert CallInv(log, call, s.calls[call].(phase := Replacing(row, newHash, s.now + ttl)));
      hide Inv, CallInv;
      MintKeepsInv(s, newHash, log, call);
      AdvanceKeepsInv(s.(log := log), call, Replacing(row, newHash, s.now + ttl));
    }
  }

  lemma AdvanceKeepsInv(s: Sys, call: nat, phase: Phase)
    requires Inv(s) && call in s.calls
    requires CallInv(s.log, call, s.calls[call].(phase := phase)) || (phase.Done? && phase.outcome.Refused?)
    ensures Inv(Advance(s, call, phase))
  {
    assert CallInv(s.log, call, s.calls[call].(phase := phase));
    hide CallInv, RowInv, TokenInv;
  }

  lemma DeleteKeepsInv(s: Sys, rows: Table)
    requires Inv(s) && forall h :: h in rows ==> h in s.rows && rows[h] == s.rows[h]
    ensures Inv(s.(rows := rows))
  {
    hide CallInv, RowInv, TokenInv;
  }

  lemma BeginKeepsInv(s: Sys, call: nat, hash: string)
    requires Inv(s)
    ensures Inv(Next(s, Begin(call, hash)))
  {
    if call !in s.calls {
      var s' := s.(calls := s.calls[call := Call(hash, Began)]);
      assert CallInv(s.log, call, s'.calls[call]);
      assert Inv(s') by {
        hide CallInv, RowInv, TokenInv;
      }
    }
  }

  lemma ReadKeepsInv(s: Sys, call: nat)
    requires Inv(s)
    ensures Inv(Next(s, ReadRow(call)))
  {
    if call in s.calls && s.calls[call].phase.Began? {
      var h := s.calls[call].oldHash;
      assert h in s.rows ==> RowInv(s.log, h, s.rows[h]);
      assert h in s.rows ==> CallInv(s.log, call, s.calls[call].(phase := Found(s.rows[h])));
      hide Inv, CallInv, RowInv;
      AdvanceKeepsInv(s, call, if h in s.rows then Found(s.rows[h]) else Done(Refused(ErrRefreshSession)));
    }
  }

  lemma CheckKeepsInv(s: Sys, call: nat)
    requires Inv(s)
    ensures Inv(Next(s, CheckExpiry(call)))
  {
    if call in s.calls && s.calls[call].phase.Found? {
      var row := s.calls[call].phase.row;
      assert CallInv(s.log, call, s.calls[call]);
      assert CallInv(s.log, call, s.calls[call].(phase := Unexpired(row)));
      hide Inv, CallInv;
      AdvanceKeepsInv(s, call, if row.expiresAt < s.now then Done(Refused(ErrTokenExpired)) else Unexpired(row));
    }
  }

  lemma WipeKeepsInv(s: Sys, call: nat)
    requires Inv(s)
    ensures Inv(Next(s, Wipe(call)))
  {
    hide Inv, DeleteAll;
    if call in s.calls && s.calls[call].phase.Wiping? {
      var p := s.calls[call].phase;
      DeleteAllKeepsInv(s, p.userID);
      AdvanceKeepsInv(s.(rows := DeleteAll(s.rows, p.userID)), call, Done(Refused(p.why)));
    }
  }

  lemma DeleteAllKeepsInv(s: Sys, userID: Uuid)
    requires Inv(s)
    ensures Inv(s.(rows := DeleteAll(s.rows, userID)))
  {
    hide Inv;
    DeleteKeepsInv(s, DeleteAll(s.rows, userID));
  }

  lemma LookupKeepsInv(s: Sys, call: nat)
    requires Inv(s)
    ensures Inv(Next(s, LookupUser(call)))
  {
    if call in s.calls && s.calls[call].phase.Replaced? {
      var p := s.calls[call].phase;
      assert CallInv(s.log, call, s.calls[call]);
      assert CallInv(s.log, call, s.calls[call].(phase := Done(Pair(p.newHash))));
      hide Inv, CallInv;
      AdvanceKeepsInv(s, call,
                      Done(if p.userID in s.availableUsers then Pair(p.newHash) else Refused(ErrRefreshSession)));
    }
  }

  lemma TickKeepsInv(s: Sys, to: int)
    requires Inv(s)
    ensures Inv(Next(s, Tick(to)))
  {
    hide CallInv, RowInv, TokenInv;
  }

  lemma UsersKeepInv(s: Sys, available: set<Uuid>)
    requires Inv(s)
    ensures Inv(Next(s, ChangeUsers(available)))
  {
    hide CallInv, RowInv, TokenInv;
  }

  /** Every step of every interleaving keeps the invariant. */
  lemma NextKeepsInv(s: Sys, e: Event)
    requires Inv(s)
    ensures Inv(Next(s, e))
  {
    hide Inv;
    match e
    case Login(hash, id, userID, expiresAt) => LoginKeepsInv(s, hash, id, userID, expiresAt);
    case Logout(hash) => ConsumeKeepsInv(s, hash);
    case Revoke(id, userID) => DeleteKeepsInv(s, DeleteByID(s.rows, id, userID));
    case RevokeOthers(userID, hash) => DeleteKeepsInv(s, DeleteOther(s.rows, userID, hash));
    case RemoveUser(userID) => DeleteAllKeepsInv(s, userID);
    case RunCleanup => DeleteKeepsInv(s, Cleanup(s.rows, s.now));
    case Tick(to) => TickKeepsInv(s, to);
    case ChangeUsers(available) => UsersKeepInv(s, available);
    case Begin(call, hash) => BeginKeepsInv(s, call, hash);
    case CheckConsumed(call, newHash, ttl) =>
      if call in s.calls && s.calls[call].phase.Unexpired? { DecideKeepsInv(s, call, newHash, ttl); }
    case Replace(call, id) =>
      if call in s.calls && s.calls[call].phase.Replacing? { ReplaceKeepsInv(s, call, id); }
    case ReadRow(call) => ReadKeepsInv(s, call);
    case CheckExpiry(call) => CheckKeepsInv(s, call);
    case Wipe(call) => WipeKeepsInv(s, call);
    case LookupUser(call) => LookupKeepsInv(s, call);
  }

  lemma {:induction false} InvThroughout(s: Sys, es: seq<Event>)
    requires Inv(s)
    ensures Inv(Run(s, es))
  {
    if es != [] {
      InvThroughout(s, es[..|es| - 1]);
      NextKeepsInv(Run(s, es[..|es| - 1]), es[|es| - 1]);
    }
  }

  /** No token has been issued and no call has begun. */
  function Fresh(now: int, available: set<Uuid>): Sys {
    Sys(map[], now, map[], available, Log({}, map[], map[], map[], map[], map[], map[]))
  }

  lemma StartInv(now: int, available: set<Uuid>)
    ensures Inv(Fresh(now, available))
  {
  }

  /* ---------- safety over every run ---------- */

  predicate GotPair(s: Sys, call: nat) {
    call in s.calls && s.calls[call].phase.Done? && s.calls[call].phase.outcome.Pair?
  }

  /** Single live token: in every reachable state each login family has at most one
      unconsumed row, and of all the calls that ever presented one refresh token at most
      one has been given a new pair. */
  lemma SingleLiveToken(s: Sys, es: seq<Event>, g: string, h: string, c: nat, d: nat)
    requires Inv(s)
    ensures var t := Run(s, es);
            && (Usable(t.rows, g) && Usable(t.rows, h) && FamilyOf(t.log, g) == FamilyOf(t.log, h) ==> g == h)
            && (GotPair(t, c) && GotPair(t, d) && t.calls[c].oldHash == t.calls[d].oldHash ==> c == d)
  {
    InvThroughout(s, es);
    var t := Run(s, es);
    assert g in t.rows ==> RowInv(t.log, g, t.rows[g]);
    assert h in t.rows ==> RowInv(t.log, h, t.rows[h]);
    assert c in t.calls ==> CallInv(t.log, c, t.calls[c]);
    assert d in t.calls ==> CallInv(t.log, d, t.calls[d]);
  }

  /** So it is in every state the program can get into. */
  lemma SingleLiveTokenEver(now: int, available: set<Uuid>, es: seq<Event>, g: string, h: string, c: nat, d: nat)
    ensures var t := Run(Fresh(now, available), es);
            && WellKeyed(t.rows)
            && (Usable(t.rows, g) && Usable(t.rows, h) && FamilyOf(t.log, g) == FamilyOf(t.log, h) ==> g == h)
            && (GotPair(t, c) && GotPair(t, d) && t.calls[c].oldHash == t.calls[d].oldHash ==> c == d)
  {
    StartInv(now, available);
    SingleLiveToken(Fresh(now, available), es, g, h, c, d);
    InvThroughout(Fresh(now, available), es);
  }

  ghost predicate Alive(s: Sys, family: string) {
    exists h :: Usable(s.rows, h) && FamilyOf(s.log, h) == family
  }

  /** A row that a step makes usable is a login's, or descends from one that was. */
  lemma UsableBefore(s: Sys, e: Event, h: string)
    requires Inv(s) && Usable(Next(s, e).rows, h) && !Usable(s.rows, h)
    ensures e.Login? || e.Replace?
    ensures e.Login? ==> h == e.hash && FamilyOf(Next(s, e).log, h) == h && h !in s.log.minted
    ensures e.Replace? ==> Alive(s, FamilyOf(Next(s, e).log, h)) && h !in s.log.family
  {
    if e.Replace? {
      var old' := s.calls[e.call].oldHash;
      assert Usable(s.rows, old') && h == s.calls[e.call].phase.newHash;
      assert CallInv(s.log, e.call, s.calls[e.call]);
      assert FamilyOf(Next(s, e).log, h) == FamilyOf(s.log, old');
    }
  }

  /** Families, owners and first consumptions are written once. */
  ghost predicate Extends(log: Log, log': Log) {
    && (forall h :: h in log.family ==> h in log'.family && log'.family[h] == log.family[h])
    && (forall f :: f in log.owner ==> f in log'.owner && log'.owner[f] == log.owner[f])
    && (forall h :: h in log.consumedAt ==> h in log'.consumedAt && log'.consumedAt[h] == log.consumedAt[h])
  }

  lemma ConsumeExtends(s: Sys, hash: string)
    requires Inv(s)
    ensures Extends(s.log, ConsumeStep(s, hash).log)
  {
    assert hash in s.rows ==> RowInv(s.log, hash, s.rows[hash]);
  }

  lemma CheckExtends(s: Sys, e: Event)
    requires e.CheckConsumed?
    ensures Extends(s.log, Next(s, e).log)
  {
    assert Next(s, e).log == s.log || Next(s, e).log == Choose(s.log, e.newHash, e.call);
    hide Next;
  }

  lemma OthersWriteNoHistory(s: Sys, e: Event)
    requires !e.Login? && !e.Logout? && !e.Replace? && !e.CheckConsumed?
    ensures Next(s, e).log == s.log
  {
    hide DeleteByID, DeleteOther, DeleteAll, Cleanup, Decide, ReplaceStep, ConsumeStep, Stored, Insertable;
    match e
    case Revoke(_, _) =>
    case RevokeOthers(_, _) =>
    case RemoveUser(_) =>
    case RunCleanup =>
    case Tick(_) =>
    case ChangeUsers(_) =>
    case Begin(_, _) =>
    case ReadRow(_) =>
    case CheckExpiry(_) =>
    case Wipe(_) =>
    case LookupUser(_) =>
  }

  lemma LoginExtends(s: Sys, e: Event)
    requires Inv(s) && e.Login?
    ensures Extends(s.log, Next(s, e).log)
  {
    assert e.hash in s.log.family ==> TokenInv(s.log, e.hash);
  }

  lemma ReplaceExtends(s: Sys, call: nat, id: Uuid)
    requires Inv(s)
    ensures Extends(s.log, Next(s, Replace(call, id)).log)
  {
    if call in s.calls && s.calls[call].phase.Replacing? {
      hide Next, Inv, Commit;
      ReplaceLog(s, call, id);
      CommitExtends(s, call, id);
    } else {
      hide Inv;
    }
  }

  lemma ReplaceLog(s: Sys, call: nat, id: Uuid)
    requires call in s.calls && s.calls[call].phase.Replacing?
    ensures Next(s, Replace(call, id)).log == s.log || Next(s, Replace(call, id)).log == Commit(s, call, id).log
  {
    hide Insertable, Consume;
  }

  lemma HistoryGrows(s: Sys, e: Event)
    requires Inv(s)
    ensures Extends(s.log, Next(s, e).log)
  {
    if e.Logout? {
      ConsumeExtends(s, e.hash);
    } else if e.Login? {
      LoginExtends(s, e);
    } else if e.Replace? {
      ReplaceExtends(s, e.call, e.id);
    } else if e.CheckConsumed? {
      CheckExtends(s, e);
    } else {
      OthersWriteNoHistory(s, e);
      hide Next, Inv;
    }
  }

  lemma CommitExtends(s: Sys, call: nat, id: Uuid)
    requires Inv(s) && call in s.calls && s.calls[call].phase.Replacing?
    ensures Extends(s.log, Commit(s, call, id).log)
  {
    ConsumeExtends(s, s.calls[call].oldHash);
    assert CallInv(s.log, call, s.calls[call]);
  }

  lemma DeadStaysDead(s: Sys, e: Event, family: string)
    requires Inv(s) && family in s.log.owner && !Alive(s, family)
    ensures !Alive(Next(s, e), family)
  {
    var s' := Next(s, e);
    forall h | Usable(s'.rows, h)
      ensures FamilyOf(s'.log, h) != family
    {
      if Usable(s.rows, h) {
        assert RowInv(s.log, h, s.rows[h]);
        HistoryGrows(s, e);
        assert FamilyOf(s.log, h) != family;
      } else {
        UsableBefore(s, e, h);
      }
    }
  }

  /** Death of a family is permanent: whatever is in flight and whatever follows, a family
      without an unconsumed row never gets one again. */
  lemma {:induction false} FamilyDeathPermanent(s: Sys, es: seq<Event>, family: string)
    requires Inv(s) && family in s.log.owner && !Alive(s, family)
    ensures family in Run(s, es).log.owner && !Alive(Run(s, es), family)
  {
    if es != [] {
      var init := es[..|es| - 1];
      FamilyDeathPermanent(s, init, family);
      InvThroughout(s, init);
      DeadStaysDead(Run(s, init), es[|es| - 1], family);
      HistoryGrows(Run(s, init), es[|es| - 1]);
    }
  }

  function OwnerOf(log: Log, family: string): Option<Uuid> {
    if family in log.owner then Some(log.owner[family]) else None
  }

  /** The one token of a family that can be unconsumed is its newest. */
  predicate NewestLives(s: Sys, family: string) {
    family in s.log.latest && Usable(s.rows, s.log.latest[family]) && FamilyOf(s.log, s.log.latest[family]) == family
  }

  lemma AliveIff(s: Sys, family: string)
    requires Inv(s)
    ensures Alive(s, family) <==> NewestLives(s, family)
    ensures Alive(s, family) ==> RowInv(s.log, s.log.latest[family], s.rows[s.log.latest[family]])
  {
    if Alive(s, family) {
      var h :| Usable(s.rows, h) && FamilyOf(s.log, h) == family;
      assert RowInv(s.log, h, s.rows[h]);
    }
  }

  /** The wipe after a detected reuse ends every family of the user, for good, and no
      family of anyone else. */
  lemma WipeExact(s: Sys, call: nat, es: seq<Event>, family: string)
    requires Inv(s) && call in s.calls && s.calls[call].phase.Wiping?
    ensures var s' := Next(s, Wipe(call));
            && (Alive(s', family) <==> Alive(s, family) && OwnerOf(s.log, family) != Some(s.calls[call].phase.userID))
            && (OwnerOf(s.log, family) == Some(s.calls[call].phase.userID) ==> !Alive(Run(s', es), family))
  {
    var s' := Next(s, Wipe(call));
    NextKeepsInv(s, Wipe(call));
    assert s'.rows == DeleteAll(s.rows, s.calls[call].phase.userID) && s'.log == s.log;
    DeletionExact(s, s', family);
    FinalOnceDead(s', es, family);
  }

  /** Logging out ends the family of the token presented exactly when that token is the
      live one; a token already rotated away ends nothing. No other family is touched. */
  lemma LogoutExact(s: Sys, hash: string, es: seq<Event>, family: string)
    requires Inv(s)
    ensures var s' := Next(s, Logout(hash));
            && (Alive(s', family) <==> Alive(s, family) && !(Usable(s.rows, hash) && FamilyOf(s.log, hash) == family))
            && (family in s.log.owner && !Alive(s', family) ==> !Alive(Run(s', es), family))
  {
    var s' := Next(s, Logout(hash));
    NextKeepsInv(s, Logout(hash));
    AliveIff(s, family);
    AliveIff(s', family);
    if Usable(s.rows, hash) {
      assert RowInv(s.log, hash, s.rows[hash]);
    }
    FinalOnceDead(s', es, family);
  }

  /** The live row of a family. */
  function LiveRow(s: Sys, family: string): Option<Token> {
    if NewestLives(s, family) then Some(s.rows[s.log.latest[family]]) else None
  }

  /** Revoking a session ends, for good, the family whose live row has that id and that
      user, and nothing else; a consumed or missing row, or another user's, ends nothing. */
  lemma RevokeExact(s: Sys, id: Uuid, userID: Uuid, es: seq<Event>, family: string)
    requires Inv(s)
    ensures var s' := Next(s, Revoke(id, userID));
            && (Alive(s, family) <==> LiveRow(s, family).Some?)
            && (Alive(s', family) <==>
                 && Alive(s, family)
                 && !(LiveRow(s, family).value.id == id && LiveRow(s, family).value.userID == userID))
            && (family in s.log.owner && !Alive(s', family) ==> !Alive(Run(s', es), family))
  {
    var s' := Next(s, Revoke(id, userID));
    NextKeepsInv(s, Revoke(id, userID));
    DeletionExact(s, s', family);
    FinalOnceDead(s', es, family);
  }

  /** No two families share a live row's id, so one revocation ends at most one family. */
  lemma RevokeEndsOne(s: Sys, id: Uuid, userID: Uuid, f: string, g: string)
    requires Inv(s) && Alive(s, f) && Alive(s, g)
    requires !Alive(Next(s, Revoke(id, userID)), f) && !Alive(Next(s, Revoke(id, userID)), g)
    ensures f == g
  {
    RevokeExact(s, id, userID, [], f);
    RevokeExact(s, id, userID, [], g);
  }

  /** Revoking the other sessions ends, for good, every family of the user but that of the
      token presented, and no family of anyone else. */
  lemma RevokeOthersExact(s: Sys, userID: Uuid, hash: string, es: seq<Event>, family: string)
    requires Inv(s)
    ensures var s' := Next(s, RevokeOthers(userID, hash));
            && (Alive(s', family) <==>
                 && Alive(s, family)
                 && (OwnerOf(s.log, family) == Some(userID) ==>
                      Usable(s.rows, hash) && FamilyOf(s.log, hash) == family))
            && (family in s.log.owner && !Alive(s', family) ==> !Alive(Run(s', es), family))
  {
    var s' := Next(s, RevokeOthers(userID, hash));
    NextKeepsInv(s, RevokeOthers(userID, hash));
    DeletionExact(s, s', family);
    if Usable(s.rows, hash) {
      assert RowInv(s.log, hash, s.rows[hash]);
    }
    FinalOnceDead(s', es, family);
  }

  /** A deletion of rows ends a family exactly when its newest token is among them. */
  lemma DeletionExact(s: Sys, s': Sys, family: string)
    requires Inv(s) && Inv(s') && s'.log == s.log
    requires forall h :: h in s'.rows ==> h in s.rows && s'.rows[h] == s.rows[h]
    ensures Alive(s', family) <==> Alive(s, family) && s.log.latest[family] in s'.rows
    ensures Alive(s, family) ==> RowInv(s.log, s.log.latest[family], s.rows[s.log.latest[family]])
    ensures Alive(s, family) <==> NewestLives(s, family)
  {
    AliveIff(s, family);
    AliveIff(s', family);
  }

  /** A transaction that goes through hands the family's one live token on to the new
      hash, for the same user. The old row stays, consumed now; every other row, the family
      it belongs to, and whether any family lives, are as they were. */
  lemma RotationExact(s: Sys, call: nat, id: Uuid, family: string, other: string)
    requires Inv(s) && call in s.calls && s.calls[call].phase.Replacing? && Usable(s.rows, s.calls[call].oldHash)
    requires Insertable(Consume(s.rows, s.calls[call].oldHash, s.now), s.calls[call].phase.newHash, id)
    ensures var h, newHash := s.calls[call].oldHash, s.calls[call].phase.newHash;
            var t := Next(s, Replace(call, id));
            && h != newHash && t.rows.Keys == s.rows.Keys + {newHash}
            && t.rows[h] == s.rows[h].(isConsumed := true, updatedAt := Some(s.now))
            && Inserted(t.rows[newHash], newHash, id, s.rows[h].userID, s.calls[call].phase.expiresAt, s.now)
            && FamilyOf(t.log, newHash) == FamilyOf(s.log, h)
            && (other in s.rows && other != h ==> t.rows[other] == s.rows[other])
            && (other in s.rows ==> FamilyOf(t.log, other) == FamilyOf(s.log, other))
            && (Alive(t, family) <==> Alive(s, family))
  {
    var h := s.calls[call].oldHash;
    assert CallInv(s.log, call, s.calls[call]) && RowInv(s.log, h, s.rows[h]);
    assert other in s.rows ==> RowInv(s.log, other, s.rows[other]);
    hide Next, Inv, Alive, CallInv, RowInv, Insertable;
    ReplaceIsCommit(s, call, id);
    RotationKeepsLife(s, call, id, family);
  }

  lemma RotationKeepsLife(s: Sys, call: nat, id: Uuid, family: string)
    requires Inv(s) && call in s.calls && s.calls[call].phase.Replacing? && Usable(s.rows, s.calls[call].oldHash)
    requires Insertable(Consume(s.rows, s.calls[call].oldHash, s.now), s.calls[call].phase.newHash, id)
    ensures Alive(Commit(s, call, id), family) <==> Alive(s, family)
  {
    var h := s.calls[call].oldHash;
    CommitKeepsInv(s, call, id);
    AliveIff(s, family);
    AliveIff(Commit(s, call, id), family);
    assert CallInv(s.log, call, s.calls[call]);
    hide Inv, Insertable, CallInv, NewestLives;
    if family == FamilyOf(s.log, h) {
      assert Usable(s.rows, h);
      NewTokenLives(s, call, id);
    } else {
      OtherFamilyKept(s, call, id, family);
    }
  }

  lemma NewTokenLives(s: Sys, call: nat, id: Uuid)
    requires call in s.calls && s.calls[call].phase.Replacing?
    ensures Alive(Commit(s, call, id), FamilyOf(s.log, s.calls[call].oldHash))
  {
    var t := Commit(s, call, id);
    assert Usable(t.rows, s.calls[call].phase.newHash);
  }

  lemma OtherFamilyKept(s: Sys, call: nat, id: Uuid, family: string)
    requires Inv(s) && call in s.calls && s.calls[call].phase.Replacing? && Usable(s.rows, s.calls[call].oldHash)
    requires family != FamilyOf(s.log, s.calls[call].oldHash)
    ensures NewestLives(Commit(s, call, id), family) <==> NewestLives(s, family)
  {
    var newHash := s.calls[call].phase.newHash;
    assert CallInv(s.log, call, s.calls[call]);
    assert newHash in s.rows ==> RowInv(s.log, newHash, s.rows[newHash]);
    hide Inv;
  }

  lemma FinalOnceDead(s: Sys, es: seq<Event>, family: string)
    requires Inv(s)
    ensures family in s.log.owner && !Alive(s, family) ==> !Alive(Run(s, es), family)
  {
    if family in s.log.owner && !Alive(s, family) {
      FamilyDeathPermanent(s, es, family);
    }
  }

  /* ---------- the grace window ---------- */

  /** Consumption is never undone and never dated again: once a token has been consumed
      its row, while it exists, stays consumed with the first consumption's time. */
  lemma {:induction false} ConsumptionIsFinal(s: Sys, es: seq<Event>, hash: string)
    requires Inv(s) && hash in s.log.consumedAt
    ensures var t := Run(s, es);
            && hash in t.log.consumedAt && t.log.consumedAt[hash] == s.log.consumedAt[hash]
            && (hash in t.rows ==> t.rows[hash].isConsumed && t.rows[hash].updatedAt == Some(s.log.consumedAt[hash]))
  {
    InvThroughout(s, es);
    if es != [] {
      var init := es[..|es| - 1];
      ConsumptionIsFinal(s, init, hash);
      InvThroughout(s, init);
      HistoryGrows(Run(s, init), es[|es| - 1]);
    }
    assert hash in Run(s, es).rows ==> RowInv(Run(s, es).log, hash, Run(s, es).rows[hash]);
  }

  /** The grace window cannot be extended: a call that has read a consumed row reaches its
      verdict without touching the table, and the verdict depends only on the clock and on
      the first consumption. */
  lemma GraceExact(s: Sys, es: seq<Event>, call: nat, newHash: string, ttl: int)
    requires Inv(s)
    requires var t := Run(s, es);
             call in t.calls && t.calls[call].phase.Unexpired? && t.calls[call].phase.row.isConsumed
    ensures var t := Run(s, es);
            var t' := Next(t, CheckConsumed(call, newHash, ttl));
            var h := t.calls[call].oldHash;
            && h in t.log.consumedAt
            && t'.rows == t.rows && t'.log.consumedAt == t.log.consumedAt
            && t'.calls[call].phase ==
                 if t.now < t.log.consumedAt[h] + 5 * 1_000_000_000 then Done(Refused(ErrTokenGracePeriod))
                 else Wiping(t.calls[call].phase.row.userID, Refusal.ErrTokenConsumed)
  {
    InvThroughout(s, es);
    var t := Run(s, es);
    assert CallInv(t.log, call, t.calls[call]);
    hide Inv, Run;
  }
}
