/** Concrete runs of the session protocol, from the state in which no token exists. */
module SessionRuns {
  import opened Wrappers
  import opened Uuids
  import opened TokenTable
  import opened SessionProtocol
  import opened SessionRetries
  import opened AuthService

  const USER: Uuid := 7
  const FIRST := "first"
  const SECOND_TOKEN := "second"
  const THIRD := "third one"

  /** One login, whose token expires at time 5. */
  const LOGIN: Event := Login(FIRST, 1, USER, 5)
  const ROW: Token := NewToken(FIRST, 1, USER, 5, 0)

  /** The steps of a call up to its verdict. */
  function Opening(call: nat, newHash: string): seq<Event> {
    [Begin(call, FIRST)] + [ReadRow(call)] + [CheckExpiry(call)] + [CheckConsumed(call, newHash, 100)]
  }

  lemma RunOpening(s: Sys, call: nat, newHash: string)
    requires call !in s.calls && newHash !in s.log.minted
    ensures Run(s, Opening(call, newHash)) == Decided(s, call, Call(FIRST, Verdict(s.rows, FIRST, newHash, s.now, 100)))
  {
    var e1 := [Begin(call, FIRST)];
    var e2 := e1 + [ReadRow(call)];
    RunOne(s, Begin(call, FIRST));
    RunSnoc(s, e1, ReadRow(call));
    RunSnoc(s, e2, CheckExpiry(call));
    RunSnoc(s, e2 + [CheckExpiry(call)], CheckConsumed(call, newHash, 100));
    VerdictAlone(s, call, FIRST, newHash, 100);
  }

  /** The state after the login. */
  function LoggedIn(): Sys {
    Sys(map[FIRST := ROW], 0, map[], {USER},
        Log({FIRST}, map[], map[FIRST := FIRST], map[FIRST := USER], map[FIRST := FIRST], map[], map[]))
  }

  lemma RunLogin()
    ensures Run(Fresh(0, {USER}), [LOGIN]) == LoggedIn()
  {
    RunOne(Fresh(0, {USER}), LOGIN);
  }

  /** One call has decided to replace the token. */
  function OneCall(): Sys {
    var s := LoggedIn();
    With(s.(log := Choose(s.log, SECOND_TOKEN, 0)), 0, Call(FIRST, Replacing(ROW, SECOND_TOKEN, 100)))
  }

  lemma RunOneCall()
    ensures Run(Fresh(0, {USER}), [LOGIN] + Opening(0, SECOND_TOKEN)) == OneCall()
  {
    RunLogin();
    RunConcat(Fresh(0, {USER}), [LOGIN], Opening(0, SECOND_TOKEN));
    RunOpening(LoggedIn(), 0, SECOND_TOKEN);
  }

  /** A second call has read the same token before the first one's transaction. */
  function TwoCalls(): Sys {
    var s := OneCall();
    With(s.(log := Choose(s.log, THIRD, 1)), 1, Call(FIRST, Replacing(ROW, THIRD, 100)))
  }

  lemma RunTwoCalls()
    ensures Run(Fresh(0, {USER}), [LOGIN] + Opening(0, SECOND_TOKEN) + Opening(1, THIRD)) == TwoCalls()
  {
    RunOneCall();
    RunConcat(Fresh(0, {USER}), [LOGIN] + Opening(0, SECOND_TOKEN), Opening(1, THIRD));
    RunOpening(OneCall(), 1, THIRD);
  }

  const USED: Token := ROW.(isConsumed := true, updatedAt := Some(0))
  const LATER: Token := NewToken(SECOND_TOKEN, 2, USER, 100, 0)

  predicate FirstThrough(s: Sys) {
    && s.rows == map[FIRST := USED, SECOND_TOKEN := LATER] && s.now == 0
    && s.calls == map[0 := Call(FIRST, Done(Pair(SECOND_TOKEN))), 1 := Call(FIRST, Replacing(ROW, THIRD, 100))]
  }

  /** The first call's transaction. */
  lemma FirstReplaces()
    ensures var s, t := TwoCalls(), Next(TwoCalls(), Replace(0, 2));
            && t.rows == map[FIRST := USED, SECOND_TOKEN := LATER] && t.now == 0 && t.availableUsers == {USER}
            && t.calls == s.calls[0 := Call(FIRST, Replaced(USER, SECOND_TOKEN))]
  {
    var s := TwoCalls();
    assert Insertable(Consume(s.rows, FIRST, 0), SECOND_TOKEN, 2);
    ReplaceIsCommit(s, 0, 2);
    hide Next;
    assert Commit(s, 0, 2).rows == map[FIRST := USED, SECOND_TOKEN := LATER];
  }

  /** The first call gets through. */
  lemma FirstGetsThrough()
    ensures FirstThrough(Next(Next(TwoCalls(), Replace(0, 2)), LookupUser(0)))
  {
    FirstReplaces();
    LookupFinds(Next(TwoCalls(), Replace(0, 2)));
    hide Next;
  }

  lemma LookupFinds(s: Sys)
    requires s.availableUsers == {USER} && 0 in s.calls && s.calls[0] == Call(FIRST, Replaced(USER, SECOND_TOKEN))
    ensures Next(s, LookupUser(0)) == Advance(s, 0, Done(Pair(SECOND_TOKEN)))
  {
  }

  /** The second does not, and wipes. */
  lemma SecondWipes(s: Sys)
    requires FirstThrough(s)
    ensures var t := Next(Next(s, Replace(1, 3)), Wipe(1));
            && t.rows == map[] && t.now == 0
            && t.calls == map[0 := Call(FIRST, Done(Pair(SECOND_TOKEN))),
                              1 := Call(FIRST, Done(Refused(ErrRefreshSession)))]
  {
    var t := Next(s, Replace(1, 3));
    assert t == Advance(s, 1, Wiping(USER, ErrRefreshSession));
    hide ReplaceStep;
  }

  /** Two refreshes of one token that overlap, with no time passing and the user doing
      nothing wrong: the first is given a new pair whose row is gone when it arrives, and
      the user is logged out everywhere. */
  lemma OverlappingRefreshesLogOut()
    ensures var begun := [LOGIN] + Opening(0, SECOND_TOKEN) + Opening(1, THIRD);
            var t := Run(Fresh(0, {USER}), begun + [Replace(0, 2)] + [LookupUser(0)] + [Replace(1, 3)] + [Wipe(1)]);
            && GotPair(t, 0) && 1 in t.calls && t.calls[1].phase == Done(Refused(ErrRefreshSession))
            && t.now == 0 && t.rows == map[] && !Alive(t, FIRST)
  {
    var s := Fresh(0, {USER});
    var begun := [LOGIN] + Opening(0, SECOND_TOKEN) + Opening(1, THIRD);
    RunTwoCalls();
    RunSnoc(s, begun, Replace(0, 2));
    RunSnoc(s, begun + [Replace(0, 2)], LookupUser(0));
    RunSnoc(s, begun + [Replace(0, 2)] + [LookupUser(0)], Replace(1, 3));
    RunSnoc(s, begun + [Replace(0, 2)] + [LookupUser(0)] + [Replace(1, 3)], Wipe(1));
    FirstGetsThrough();
    SecondWipes(Next(Next(TwoCalls(), Replace(0, 2)), LookupUser(0)));
    hide Run, Next, TwoCalls;
  }

  predicate Late(s: Sys) {
    && s.rows == map[FIRST := ROW] && s.now == 6
    && s.calls == map[0 := Call(FIRST, Replacing(ROW, SECOND_TOKEN, 100))]
  }

  lemma LateWithCleanup(s: Sys)
    requires Late(s)
    ensures var t := Next(Next(Next(s, RunCleanup), Replace(0, 2)), Wipe(0));
            t.rows == map[] && t.calls == map[0 := Call(FIRST, Done(Refused(ErrRefreshSession)))]
  {
    var s2 := Next(s, RunCleanup);
    assert s2 == s.(rows := map[]);
    assert Next(s2, Replace(0, 2)) == Advance(s2, 0, Wiping(USER, ErrRefreshSession));
    hide ReplaceStep;
  }

  lemma LateWithoutCleanup(s: Sys)
    requires Late(s)
    ensures var u := Next(s, Replace(0, 2));
            u.calls == map[0 := Call(FIRST, Replaced(USER, SECOND_TOKEN))] && Usable(u.rows, SECOND_TOKEN)
  {
  }

  /** A token that expires between a call's expiry check and its transaction: without a
      cleanup the call gets through, and with one in between it wipes the user's rows. */
  lemma CleanupLogsOut()
    ensures var late := [LOGIN] + Opening(0, SECOND_TOKEN) + [Tick(6)];
            var t := Run(Fresh(0, {USER}), late + [RunCleanup] + [Replace(0, 2)] + [Wipe(0)]);
            var u := Run(Fresh(0, {USER}), late + [Replace(0, 2)]);
            && t.rows == map[] && 0 in t.calls && t.calls[0].phase == Done(Refused(ErrRefreshSession))
            && 0 in u.calls && u.calls[0].phase == Replaced(USER, SECOND_TOKEN) && Usable(u.rows, SECOND_TOKEN)
  {
    var s := Fresh(0, {USER});
    var late := [LOGIN] + Opening(0, SECOND_TOKEN) + [Tick(6)];
    RunOneCall();
    RunSnoc(s, [LOGIN] + Opening(0, SECOND_TOKEN), Tick(6));
    RunSnoc(s, late, Replace(0, 2));
    RunSnoc(s, late, RunCleanup);
    RunSnoc(s, late + [RunCleanup], Replace(0, 2));
    RunSnoc(s, late + [RunCleanup] + [Replace(0, 2)], Wipe(0));
    var tick := Next(OneCall(), Tick(6));
    assert Late(tick);
    LateWithCleanup(tick);
    LateWithoutCleanup(tick);
    hide Run, Next, OneCall;
  }

  /* ---------- a revocation under a refresh ---------- */

  const KEPT := "kept session"
  const KEPT_ROW: Token := NewToken(KEPT, 4, USER, 5, 0)
  const SECOND_LOGIN: Event := Login(KEPT, 4, USER, 5)

  /** The user is logged in on two devices. */
  function TwoLogins(): Sys {
    Sys(map[FIRST := ROW, KEPT := KEPT_ROW], 0, map[], {USER},
        Log({FIRST, KEPT}, map[], map[FIRST := FIRST, KEPT := KEPT], map[FIRST := USER, KEPT := USER],
            map[FIRST := FIRST, KEPT := KEPT], map[], map[]))
  }

  lemma RunTwoLogins()
    ensures Run(Fresh(0, {USER}), [LOGIN] + [SECOND_LOGIN]) == TwoLogins()
  {
    RunLogin();
    RunSnoc(Fresh(0, {USER}), [LOGIN], SECOND_LOGIN);
    assert Next(LoggedIn(), SECOND_LOGIN) == TwoLogins();
  }

  predicate OnTheWay(s: Sys) {
    && s.rows == map[FIRST := ROW, KEPT := KEPT_ROW]
    && s.calls == map[0 := Call(FIRST, Replacing(ROW, SECOND_TOKEN, 100))]
  }

  lemma RunOnTheWay()
    ensures OnTheWay(Run(Fresh(0, {USER}), [LOGIN] + [SECOND_LOGIN] + Opening(0, SECOND_TOKEN)))
  {
    RunTwoLogins();
    RunConcat(Fresh(0, {USER}), [LOGIN] + [SECOND_LOGIN], Opening(0, SECOND_TOKEN));
    RunOpening(TwoLogins(), 0, SECOND_TOKEN);
  }

  lemma RevokedUnderWay(s: Sys)
    requires OnTheWay(s)
    ensures var s1 := Next(s, RevokeOthers(USER, KEPT));
            var t := Next(Next(s1, Replace(0, 2)), Wipe(0));
            && s1.rows == map[KEPT := KEPT_ROW]
            && t.rows == map[] && t.calls == map[0 := Call(FIRST, Done(Refused(ErrRefreshSession)))]
  {
    var s1 := Next(s, RevokeOthers(USER, KEPT));
    assert s1 == s.(rows := map[KEPT := KEPT_ROW]);
    assert Next(s1, Replace(0, 2)) == Advance(s1, 0, Wiping(USER, ErrRefreshSession));
    hide ReplaceStep;
  }

  /** The user asks on one device to be logged out on all others while another device is
      refreshing. The session that asked is the only one left, and then the refresh finds
      its token gone, takes that for theft, and deletes it too. */
  lemma RevokeOthersLogsOutKept()
    ensures var before := [LOGIN] + [SECOND_LOGIN] + Opening(0, SECOND_TOKEN);
            var s := Run(Fresh(0, {USER}), before + [RevokeOthers(USER, KEPT)]);
            var t := Run(Fresh(0, {USER}), before + [RevokeOthers(USER, KEPT)] + [Replace(0, 2)] + [Wipe(0)]);
            && Usable(s.rows, KEPT) && t.rows == map[] && ReplyTo(t, 0) == Some(Refused(ErrRefreshSession))
  {
    var s := Fresh(0, {USER});
    var before := [LOGIN] + [SECOND_LOGIN] + Opening(0, SECOND_TOKEN);
    RunOnTheWay();
    RunSnoc(s, before, RevokeOthers(USER, KEPT));
    RunSnoc(s, before + [RevokeOthers(USER, KEPT)], Replace(0, 2));
    RunSnoc(s, before + [RevokeOthers(USER, KEPT)] + [Replace(0, 2)], Wipe(0));
    RevokedUnderWay(Run(s, before));
    hide Run, Next;
  }
}
