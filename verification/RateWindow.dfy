/**
 Fixed-window rate limits: `increment` of src/datasources/cache/redis.cache.service.ts as
 ZerionBalancesApi, AccountsDatasource and CounterfactualSafesDatasource use it. Every call is
 one Redis transaction, so a concurrent run is a sequence of calls in the order Redis takes them.
 */
module RateWindow {
  import opened Prelude
  import opened RedisStore
  import R = RedisCacheService

  /** One call at a time in milliseconds, with what became of its transaction. */
  datatype Call = Call(at: nat, reply: Reply)

  /** The counter of one key, deadline included, or nothing. */
  type Window = Option<Counter>

  /** The counter as Redis sees it at `at`. */
  function Seen(w: Window, at: nat): Window {
    if w.Some? && Reached(w.value.deadline, at) then None else w
  }

  /** The counter after an executed transaction with period `p` milliseconds. */
  function Bump(w: Window, at: nat, p: nat): Counter {
    match Seen(w, at)
    case None => Counter(1, Some(at + p))
    case Some(c) => Counter(c.count + 1, if c.deadline.None? then Some(at + p) else c.deadline)
  }

  function After(w: Window, c: Call, p: nat): Window {
    if c.reply == Failed then Seen(w, c.at) else Some(Bump(w, c.at, p))
  }

  /** The call goes through: its transaction was answered with at most `limit`. */
  predicate Admitted(w: Window, c: Call, p: nat, limit: nat) {
    c.reply == Done && Bump(w, c.at, p).count <= limit
  }

  /** How many calls of a run are admitted from `from` to `to`, both included. */
  function AdmittedIn(w: Window, calls: seq<Call>, p: nat, limit: nat, from: nat, to: nat): nat
    decreases |calls|
  {
    if calls == [] then 0
    else
      (if from <= calls[0].at <= to && Admitted(w, calls[0], p, limit) then 1 else 0)
      + AdmittedIn(After(w, calls[0], p), calls[1..], p, limit, from, to)
  }

  ghost predicate InOrder(calls: seq<Call>, start: nat) {
    && (calls != [] ==> start <= calls[0].at)
    && forall i :: 0 <= i < |calls| - 1 ==> calls[i].at <= calls[i + 1].at
  }

  lemma InOrderTail(calls: seq<Call>, start: nat)
    requires calls != [] && InOrder(calls, start)
    ensures InOrder(calls[1..], calls[0].at)
  {
    if |calls| > 1 {
      assert calls[0].at <= calls[1].at;
    }
    var rest := calls[1..];
    forall i | 0 <= i < |rest| - 1 ensures rest[i].at <= rest[i + 1].at {
      assert calls[i + 1].at <= calls[i + 2].at;
    }
  }

  /** A counter that counts a window ending at `deadline`. */
  predicate Counting(w: Window, count: int, deadline: nat) {
    w == Some(Counter(count, Some(deadline)))
  }

  function Left(limit: nat, count: int): nat {
    if count >= limit then 0 else limit - count
  }

  /** A window that has counted `count` calls admits at most `limit - count` more. */
  lemma {:induction false} RestOfWindow(w: Window, count: nat, deadline: nat, calls: seq<Call>, p: nat, limit: nat, from: nat, to: nat)
    requires Counting(w, count, deadline) && to < deadline
    requires exists start :: InOrder(calls, start)
    ensures AdmittedIn(w, calls, p, limit, from, to) <= Left(limit, count)
    decreases calls
  {
    if calls != [] {
      var start :| InOrder(calls, start);
      InOrderTail(calls, start);
      if calls[0].at < deadline {
        if calls[0].reply == Failed {
          RestOfWindow(w, count, deadline, calls[1..], p, limit, from, to);
        } else {
          RestOfWindow(After(w, calls[0], p), count + 1, deadline, calls[1..], p, limit, from, to);
        }
      } else {
        NoneAfter(w, calls, p, limit, from, to);
      }
    }
  }

  lemma {:induction false} NoneAfter(w: Window, calls: seq<Call>, p: nat, limit: nat, from: nat, to: nat)
    requires calls == [] || InOrder(calls, to + 1)
    ensures AdmittedIn(w, calls, p, limit, from, to) == 0
    decreases calls
  {
    if calls != [] {
      InOrderTail(calls, to + 1);
      NoneAfter(After(w, calls[0], p), calls[1..], p, limit, from, to);
    }
  }

  /** From a moment at which no window is open, less than one period admits at most `limit` calls. */
  lemma {:induction false} FreshWindow(w: Window, calls: seq<Call>, p: nat, limit: nat, from: nat, to: nat, start: nat)
    requires InOrder(calls, start) && Seen(w, start).None? && to < start + p
    ensures AdmittedIn(w, calls, p, limit, from, to) <= limit
    decreases calls
  {
    if calls != [] {
      var c := calls[0];
      InOrderTail(calls, start);
      if c.reply == Failed {
        FreshWindow(After(w, c, p), calls[1..], p, limit, from, to, c.at);
      } else {
        RestOfWindow(After(w, c, p), 1, c.at + p, calls[1..], p, limit, from, to);
      }
    }
  }

  /** An open window and less than one period after it admit what is left of it plus `limit`. */
  lemma {:induction false} WindowAndNext(w: Window, count: nat, deadline: nat, calls: seq<Call>, p: nat, limit: nat,
                                         from: nat, to: nat, start: nat)
    requires InOrder(calls, start) && Counting(w, count, deadline) && to < deadline + p
    ensures AdmittedIn(w, calls, p, limit, from, to) <= Left(limit, count) + limit
    decreases calls
  {
    if calls != [] {
      var c := calls[0];
      InOrderTail(calls, start);
      if deadline <= c.at {
        FreshWindow(w, calls, p, limit, from, to, c.at);
      } else if c.reply == Failed {
        WindowAndNext(w, count, deadline, calls[1..], p, limit, from, to, c.at);
      } else {
        WindowAndNext(After(w, c, p), count + 1, deadline, calls[1..], p, limit, from, to, c.at);
      }
    }
  }

  /** What the counter can be in a run of this limiter alone. */
  predicate Possible(w: Window) {
    w.None? || (w.value.count >= 0 && w.value.deadline.Some?)
  }

  lemma {:induction false} AnyIntervalFrom(w: Window, calls: seq<Call>, p: nat, limit: nat, from: nat, start: nat)
    requires p > 0 && Possible(w) && InOrder(calls, start)
    ensures AdmittedIn(w, calls, p, limit, from, from + p) <= 2 * limit
    decreases calls
  {
    if calls != [] {
      var c := calls[0];
      InOrderTail(calls, start);
      if c.at < from || c.reply == Failed {
        AnyIntervalFrom(After(w, c, p), calls[1..], p, limit, from, c.at);
      } else if Seen(w, c.at).None? {
        WindowAndNext(After(w, c, p), 1, c.at + p, calls[1..], p, limit, from, from + p, c.at);
      } else {
        var Counter(count, deadline) := w.value;
        WindowAndNext(w, count, deadline.value, calls, p, limit, from, from + p, start);
      }
    }
  }

  /** Whatever the callers do, any interval of one period, both ends included, admits at most twice the limit. */
  lemma AtMostTwiceTheLimit(calls: seq<Call>, p: nat, limit: nat, from: nat)
    requires p > 0 && InOrder(calls, 0)
    ensures AdmittedIn(None, calls, p, limit, from, from + p) <= 2 * limit
  {
    AnyIntervalFrom(None, calls, p, limit, from, 0);
  }

  /**
   * Each window: from the call that opens it to its deadline at most `limit` calls are admitted,
   * whatever the run did before.
   */
  lemma AtMostLimitPerWindow(w: Window, calls: seq<Call>, p: nat, limit: nat)
    requires p > 0 && calls != [] && InOrder(calls, calls[0].at) && Seen(w, calls[0].at).None?
    ensures AdmittedIn(w, calls, p, limit, calls[0].at, calls[0].at + p - 1) <= limit
  {
    FreshWindow(w, calls, p, limit, calls[0].at, calls[0].at + p - 1, calls[0].at);
  }

  // ---- the bound is attained ----

  function Burst(n: nat, at: nat): (calls: seq<Call>)
    ensures |calls| == n && forall i :: 0 <= i < n ==> calls[i] == Call(at, Done)
  {
    seq(n, _ => Call(at, Done))
  }

  lemma {:induction false} BurstAdmitted(w: Window, count: nat, n: nat, at: nat, rest: seq<Call>, deadline: nat, p: nat, limit: nat, from: nat, to: nat)
    requires Counting(w, count, deadline) && at < deadline && count + n <= limit && from <= at <= to
    ensures exists w' :: Counting(w', count + n, deadline) &&
              AdmittedIn(w, Burst(n, at) + rest, p, limit, from, to) == n + AdmittedIn(w', rest, p, limit, from, to)
    decreases n
  {
    var calls := Burst(n, at) + rest;
    if n == 0 {
      assert calls == rest;
    } else {
      assert calls[1..] == Burst(n - 1, at) + rest;
      BurstAdmitted(After(w, calls[0], p), count + 1, n - 1, at, rest, deadline, p, limit, from, to);
    }
  }

  /** `limit` calls at once and `limit` more exactly one period later are all admitted. */
  lemma TwiceTheLimitIsReached(p: nat, limit: nat)
    requires p > 0 && limit > 0
    ensures var calls := Burst(limit, 0) + Burst(limit, p);
            InOrder(calls, 0) && AdmittedIn(None, calls, p, limit, 0, p) == 2 * limit
  {
    var calls := Burst(limit, 0) + Burst(limit, p);
    assert calls[1..] == Burst(limit - 1, 0) + Burst(limit, p);
    var w1 := After(None, calls[0], p);
    BurstAdmitted(w1, 1, limit - 1, 0, Burst(limit, p), p, p, limit, 0, p);
    var w2 :| Counting(w2, limit, p) &&
              AdmittedIn(w1, calls[1..], p, limit, 0, p) == limit - 1 + AdmittedIn(w2, Burst(limit, p), p, limit, 0, p);
    assert Burst(limit, p)[1..] == Burst(limit - 1, p) + [];
    var w3 := After(w2, Call(p, Done), p);
    BurstAdmitted(w3, 1, limit - 1, p, [], 2 * p, p, limit, 0, p);
  }

  // ---- the limiter on the store ----

  function WindowOf<V>(s: Store<V>, key: string): Window {
    if key in s.counters then Some(s.counters[key]) else None
  }

  /** The transaction on the store is the step of the window. */
  lemma IncrementIsBump<V>(s: Store<V>, key: string, seconds: nat)
    requires Live(s) && seconds > 0
    ensures WindowOf(IncrExpire(s, key, Some(seconds)), key) == Some(Bump(WindowOf(s, key), s.now, MS_PER_SECOND * seconds))
  {
  }

  /** The clock of the store does to the counter what the window sees. */
  lemma AdvanceIsSeen<V>(s: Store<V>, key: string, ms: nat)
    ensures WindowOf(Advance(s, ms), key) == Seen(WindowOf(s, key), s.now + ms)
  {
  }

  /** `_checkRateLimit` / `checkCreationRateLimit`: counts the call, then refuses it above the limit; a
      transaction that fails or goes unanswered refuses it too. */
  method CheckRateLimit<V>(cache: R.RedisCacheService<V>, key: string, periodSeconds: nat, limit: nat, reply: Reply)
    returns (admitted: bool)
    requires Live(cache.store) && periodSeconds > 0
    modifies cache`store
    ensures var call := Call(old(cache.store).now, reply);
            && (admitted <==> Admitted(WindowOf(old(cache.store), key), call, MS_PER_SECOND * periodSeconds, limit))
            && (admitted <==> reply == Done && 1 + R.CounterAt(old(cache.store), key) <= limit)
            && WindowOf(cache.store, key) == After(WindowOf(old(cache.store), key), call, MS_PER_SECOND * periodSeconds)
  {
    IncrementIsBump(cache.store, key, periodSeconds);
    var current := cache.Increment(key, Some(periodSeconds), reply);
    admitted := current.Some? && current.value <= limit;
  }
}
