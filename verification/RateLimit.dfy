/** The fixed-window rate limiter: one atomic script over a counter that expires. */
module RateLimit {
  import opened Wrappers

  /** A stored counter; INCR on a missing key creates one without an expiry. */
  datatype Counter = Absent | Present(count: int, expiry: Option<int>)

  datatype Reply = Reply(allowed: bool, remaining: int, pttl: int)

  /** `lag` is 0 if the store drops a key at its expiry time and 1 if it keeps the key
      through that millisecond. */
  datatype Rule = Rule(limit: int, windowSeconds: int, lag: nat)

  datatype Verdict = Verdict(allowed: bool, remaining: int, reset: int)

  function Width(rule: Rule): int {
    rule.windowSeconds * 1000
  }

  /** How long an admitted first request keeps its window open. */
  function Span(rule: Rule): int {
    Width(rule) + rule.lag
  }

  /** The most one window admits: a missing counter is never compared with the limit. */
  function Cap(rule: Rule): int {
    if rule.limit < 1 then 1 else rule.limit
  }

  function Seen(c: Counter, rule: Rule, now: int): Counter {
    if c.Present? && c.expiry.Some? && now >= c.expiry.value + rule.lag then Absent else c
  }

  function Pttl(c: Counter, now: int): int {
    if c.Absent? then -2 else if c.expiry.None? then -1
    else if c.expiry.value < now then 0 else c.expiry.value - now
  }

  /** The script, run at `now`. PEXPIRE with no time to live deletes the key. */
  function Script(c: Counter, rule: Rule, now: int): (Counter, Reply) {
    var current := Seen(c, rule, now);
    if current.Present? && current.count >= rule.limit then
      (current, Reply(false, 0, Pttl(current, now)))
    else
      var incremented := if current.Present? then current.(count := current.count + 1) else Present(1, None);
      var after :=
        if incremented.count == 1 then
          if Width(rule) <= 0 then Absent else incremented.(expiry := Some(now + Width(rule)))
        else incremented;
      (after, Reply(true, rule.limit - incremented.count, Pttl(after, now)))
  }

  class Limiter {
    var store: map<string, Counter>

    constructor ()
      ensures store == map[]
    {
      store := map[];
    }

    function CounterOf(key: string): Counter
      reads this
    {
      if key in store then store[key] else Absent
    }

    /** `window` is in nanoseconds; the script gets whole seconds. */
    method Allow(key: string, limit: int, window: nat, lag: nat, now: int) returns (r: Verdict)
      modifies this
      ensures var (c, reply) := old(Script(CounterOf(key), Rule(limit, window / 1_000_000_000, lag), now));
              CounterOf(key) == c && r.allowed == reply.allowed && r.remaining == reply.remaining
              && r.reset == if reply.pttl < 0 then 0 else reply.pttl
      ensures forall k :: k != key ==> CounterOf(k) == old(CounterOf(k))
    {
      var rule := Rule(limit, window / 1_000_000_000, lag);
      var current := Seen(CounterOf(key), rule, now);
      if current.Present? && current.count >= limit {
        store := store[key := current];
        var pttl := Pttl(current, now);
        return Verdict(false, 0, if pttl < 0 then 0 else pttl);
      }
      var newVal := if current.Present? then current.count + 1 else 1;
      var after := Present(newVal, if current.Present? then current.expiry else None);
      if newVal == 1 {
        after := if Width(rule) <= 0 then Absent else Present(1, Some(now + Width(rule)));
      }
      store := store[key := after];
      var pttl := Pttl(after, now);
      r := Verdict(true, limit - newVal, if pttl < 0 then 0 else pttl);
    }
  }

  /* ---------- traces ---------- */

  predicate Ordered(times: seq<int>) {
    forall i, j :: 0 <= i < j < |times| ==> times[i] <= times[j]
  }

  /** The counter after requests at the given times. */
  function After(rule: Rule, times: seq<int>): Counter {
    if times == [] then Absent else Script(After(rule, times[..|times| - 1]), rule, times[|times| - 1]).0
  }

  /** The reply to the last request. */
  function LastReply(rule: Rule, times: seq<int>): Reply
    requires times != []
  {
    Script(After(rule, times[..|times| - 1]), rule, times[|times| - 1]).1
  }

  /** The admitted requests with `lo <= time < hi`. */
  function Admitted(rule: Rule, times: seq<int>, lo: int, hi: int): nat {
    if times == [] then 0 else
      var t := times[|times| - 1];
      Admitted(rule, times[..|times| - 1], lo, hi) + if LastReply(rule, times).allowed && lo <= t < hi then 1 else 0
  }

  lemma {:induction false} AdmittedSplits(rule: Rule, times: seq<int>, lo: int, mid: int, hi: int)
    requires lo <= mid <= hi
    ensures Admitted(rule, times, lo, hi) == Admitted(rule, times, lo, mid) + Admitted(rule, times, mid, hi)
  {
    if times != [] {
      AdmittedSplits(rule, times[..|times| - 1], lo, mid, hi);
    }
  }

  lemma {:induction false} NoneAdmittedLater(rule: Rule, times: seq<int>, lo: int, hi: int)
    requires forall i :: 0 <= i < |times| ==> times[i] < lo
    ensures Admitted(rule, times, lo, hi) == 0
  {
    if times != [] {
      NoneAdmittedLater(rule, times[..|times| - 1], lo, hi);
    }
  }

  /** Narrowing an interval admits no more. */
  lemma AdmittedMonotone(rule: Rule, times: seq<int>, lo: int, hi: int, lo': int, hi': int)
    requires lo <= lo' && hi' <= hi
    ensures Admitted(rule, times, lo', hi') <= Admitted(rule, times, lo, hi)
  {
    if lo' <= hi' {
      AdmittedSplits(rule, times, lo, lo', hi);
      AdmittedSplits(rule, times, lo', hi', hi);
    } else {
      EmptyInterval(rule, times, lo', hi');
    }
  }

  lemma {:induction false} EmptyInterval(rule: Rule, times: seq<int>, lo: int, hi: int)
    requires hi <= lo
    ensures Admitted(rule, times, lo, hi) == 0
  {
    if times != [] {
      EmptyInterval(rule, times[..|times| - 1], lo, hi);
    }
  }

  /** Where the current window began. */
  function Start(rule: Rule, times: seq<int>): int {
    var c := After(rule, times);
    if c.Present? && c.expiry.Some? then c.expiry.value - Width(rule) else 0
  }

  /** After at least one request: the counter has an expiry, lies within its bounds and
      counts exactly the admissions of the current window, which is still open; and the
      stretch of one span before the window holds at most one window's worth. */
  ghost predicate Inv(rule: Rule, times: seq<int>)
    requires times != []
  {
    var c := After(rule, times);
    var t := times[|times| - 1];
    var start := Start(rule, times);
    && c.Present? && c.expiry.Some?
    && 1 <= c.count <= Cap(rule)
    && start <= t < start + Span(rule)
    && Admitted(rule, times, start, start + Span(rule)) == c.count
    && Admitted(rule, times, start - Span(rule), start) <= Cap(rule)
  }

  lemma InvStep(rule: Rule, times: seq<int>)
    requires Ordered(times) && rule.windowSeconds >= 1 && |times| >= 2
    requires Inv(rule, times[..|times| - 1])
    ensures Inv(rule, times)
  {
    var init, t := times[..|times| - 1], times[|times| - 1];
    var c, start, span := After(rule, init), Start(rule, init), Span(rule);
    assert init[|init| - 1] <= t;
    if t >= start + span {
      // The window has closed; a new one starts at t.
      assert After(rule, times) == Present(1, Some(t + Width(rule)));
      NoneAdmittedLater(rule, init, t, t + span);
      AdmittedSplits(rule, init, start, start + span, t);
      NoneAdmittedLater(rule, init, start + span, t);
      AdmittedMonotone(rule, init, start, t, t - span, t);
    } else {
      assert Seen(c, rule, t) == c;
    }
  }

  lemma {:induction false} InvHolds(rule: Rule, times: seq<int>)
    requires Ordered(times) && rule.windowSeconds >= 1 && times != []
    ensures Inv(rule, times)
  {
    if |times| == 1 {
      var t := times[0];
      assert times[..0] == [];
      assert After(rule, times) == Present(1, Some(t + Width(rule)));
    } else {
      InvHolds(rule, times[..|times| - 1]);
      InvStep(rule, times);
    }
  }

  /** In every run the counter is bounded and has an expiry, the reported remaining is the
      limit less the admissions of the current window, and a denial changes nothing. */
  lemma LimiterState(rule: Rule, times: seq<int>)
    requires Ordered(times) && rule.windowSeconds >= 1 && times != []
    ensures var c := After(rule, times);
            var reply := LastReply(rule, times);
            var start := Start(rule, times);
            && c.Present? && c.expiry.Some? && 1 <= c.count <= Cap(rule)
            && (reply.allowed ==> reply.remaining == rule.limit - Admitted(rule, times, start, start + Span(rule)))
            && (!reply.allowed ==> c == After(rule, times[..|times| - 1]) && reply.remaining == 0
                                   && Admitted(rule, times, start, start + Span(rule)) == Cap(rule))
            && (times[|times| - 1] <= c.expiry.value ==> reply.pttl == c.expiry.value - times[|times| - 1])
  {
    InvHolds(rule, times);
    if |times| >= 2 {
      InvHolds(rule, times[..|times| - 1]);
    }
  }

  /** After a denial the first request to arrive is admitted exactly when the reported
      time has passed (and, with a lagging store, one millisecond more). */
  lemma RecoveryExact(rule: Rule, times: seq<int>, later: int)
    requires Ordered(times) && rule.windowSeconds >= 1 && times != [] && rule.lag <= 1
    requires !LastReply(rule, times).allowed && later >= times[|times| - 1]
    ensures LastReply(rule, times + [later]).allowed
       <==> later >= times[|times| - 1] + LastReply(rule, times).pttl + rule.lag
  {
    InvHolds(rule, times);
    LimiterState(rule, times);
    assert (times + [later])[..|times|] == times;
  }

  /** Windows are disjoint stretches of full length. */
  lemma {:induction false} WindowsApart(rule: Rule, times: seq<int>, i: nat)
    requires Ordered(times) && rule.windowSeconds >= 1 && 1 <= i <= |times|
    ensures Start(rule, times[..i]) == Start(rule, times)
         || Start(rule, times[..i]) + Span(rule) <= Start(rule, times)
  {
    if i == |times| {
      assert times[..i] == times;
    } else {
      var init := times[..|times| - 1];
      assert init[..i] == times[..i];
      WindowsApart(rule, init, i);
      InvHolds(rule, init);
      InvHolds(rule, times);
    }
  }

  /** Each window admits at most the cap, also counting what arrives later. */
  lemma {:induction false} WindowBound(rule: Rule, times: seq<int>, i: nat)
    requires Ordered(times) && rule.windowSeconds >= 1 && 1 <= i <= |times|
    ensures var start := Start(rule, times[..i]);
            Admitted(rule, times, start, start + Span(rule)) <= Cap(rule)
  {
    InvHolds(rule, times);
    if i == |times| {
      assert times[..i] == times;
    } else {
      var init := times[..|times| - 1];
      assert init[..i] == times[..i];
      WindowBound(rule, init, i);
      WindowsApart(rule, times, i);
    }
  }

  /** The last request falls into a window that holds at most the cap, as does the stretch
      of one span before it. */
  lemma WindowAround(rule: Rule, times: seq<int>)
    requires Ordered(times) && rule.windowSeconds >= 1 && times != []
    ensures var start, span := Start(rule, times), Span(rule);
            && start <= times[|times| - 1] < start + span
            && Admitted(rule, times, start, start + span) <= Cap(rule)
            && Admitted(rule, times, start - span, start) <= Cap(rule)
  {
    InvHolds(rule, times);
    hide Script, LastReply, After, Start, Ordered, Admitted;
  }

  /** The rate bound: no interval as long as one window holds more than two windows'
      worth of admitted requests, over every trace. */
  lemma {:induction false} RateBound(rule: Rule, times: seq<int>, from: int)
    requires Ordered(times) && rule.windowSeconds >= 1
    ensures Admitted(rule, times, from, from + rule.windowSeconds * 1000 + rule.lag)
         <= 2 * (if rule.limit < 1 then 1 else rule.limit)
  {
    if times != [] {
      var init, t := times[..|times| - 1], times[|times| - 1];
      var span := Span(rule);
      RateBound(rule, init, from);
      WindowAround(rule, times);
      hide Script, LastReply, After, Start, Ordered;
      var start := Start(rule, times);
      if from <= t < from + span {
        if from < start {
          AdmittedSplits(rule, times, from, start, start + span);
          AdmittedMonotone(rule, times, start - span, start, from, start);
          AdmittedMonotone(rule, times, from, start + span, from, from + span);
        } else {
          AdmittedSplits(rule, times, from, start + span, from + span);
          NoneAdmittedLater(rule, times, start + span, from + span);
          AdmittedMonotone(rule, times, start, start + span, from, start + span);
        }
      }
    }
  }

  /** One request a second, in a store that drops keys on time: a request in the window's
      last millisecond is refused and told to wait one, and the next one is admitted. */
  lemma OneASecond()
    ensures var rule := Rule(1, 1, 0);
            && LastReply(rule, [0]) == Reply(true, 0, 1000)
            && LastReply(rule, [0] + [999]) == Reply(false, 0, 1)
            && LastReply(rule, [0] + [1000]) == Reply(true, 0, 1000)
  {
    var rule := Rule(1, 1, 0);
    assert [0][..0] == [] && ([0] + [999])[..1] == [0] && ([0] + [1000])[..1] == [0];
    assert After(rule, [0]) == Present(1, Some(1000));
  }
}
