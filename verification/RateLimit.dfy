/** The per-key rate limit (server/cache/cache.go IncrRateLimit, server/handler/exec.go): one
    counter per key in the shared L2, incremented and re-expired on every call. */
module RateLimit {
  import opened Prelude
  import opened CacheTiers

  const LIMIT: nat := 600

  datatype Counter = Counter(count: nat, expiresAt: int)

  type Counters = map<string, Counter>

  /** INCR then EXPIRE in one pipeline: an expired counter starts again from one. */
  function Incr(cs: Counters, key: string, ttl: int, now: int): (Counters, nat)
  {
    var count := if key in cs && now < cs[key].expiresAt then cs[key].count + 1 else 1;
    (cs[key := Counter(count, now + ttl)], count)
  }

  // ---- Whole traces ---------------------------------------------------------------------

  datatype Call = Call(key: string, at: int)

  ghost predicate InOrder(calls: seq<Call>)
  {
    forall i, j :: 0 <= i < j < |calls| ==> calls[i].at <= calls[j].at
  }

  /** The counters after a trace of calls. */
  function After(calls: seq<Call>): Counters
  {
    if calls == [] then map[]
    else Incr(After(calls[..|calls| - 1]), calls[|calls| - 1].key, MINUTE, calls[|calls| - 1].at).0
  }

  predicate Accepted(calls: seq<Call>, i: nat)
    requires i < |calls|
  {
    Incr(After(calls[..i]), calls[i].key, MINUTE, calls[i].at).1 <= LIMIT
  }

  /** The latest call of key before position i. */
  function Previous(calls: seq<Call>, i: nat, key: string): (p: Option<nat>)
    requires i <= |calls|
    ensures p.Some? ==> p.value < i && calls[p.value].key == key
    ensures p.Some? ==> forall j :: p.value < j < i ==> calls[j].key != key
    ensures p.None? ==> forall j :: 0 <= j < i ==> calls[j].key != key
  {
    if i == 0 then None
    else if calls[i - 1].key == key then Some(i - 1)
    else Previous(calls, i - 1, key)
  }

  /** How many calls of its key, call i included, there have been since that key was last idle
      for a full minute. */
  function Burst(calls: seq<Call>, i: nat): (n: nat)
    requires i < |calls|
    ensures n >= 1
  {
    match Previous(calls, i, calls[i].key)
    case None => 1
    case Some(p) => if calls[i].at < calls[p].at + MINUTE then Burst(calls, p) + 1 else 1
  }

  /** The stored counter of a key describes its latest call. */
  lemma {:induction false} CounterIsBurst(calls: seq<Call>, n: nat, key: string)
    requires n <= |calls|
    ensures var cs := After(calls[..n]);
      match Previous(calls, n, key)
      case None => key !in cs
      case Some(p) => key in cs && cs[key] == Counter(Burst(calls, p), calls[p].at + MINUTE)
  {
    if n > 0 {
      assert calls[..n][..n - 1] == calls[..n - 1];
      CounterIsBurst(calls, n - 1, key);
    }
  }

  /** A call is let through exactly when it is among the first 600 of its burst. */
  lemma {:induction false} AcceptedIffEarlyInBurst(calls: seq<Call>, i: nat)
    requires i < |calls|
    ensures Accepted(calls, i) <==> Burst(calls, i) <= 600
  {
    CounterIsBurst(calls, i, calls[i].key);
  }

  /** The accepted calls of key from time t on, before a minute has passed. */
  ghost function Window(calls: seq<Call>, key: string, t: int): set<nat>
  {
    set i | 0 <= i < |calls| && calls[i].key == key && t <= calls[i].at < t + 60_000 && Accepted(calls, i)
  }

  /** Inside a minute the burst position grows with every call. */
  lemma {:induction false} BurstGrows(calls: seq<Call>, i: nat, j: nat)
    requires InOrder(calls) && i < j < |calls| && calls[i].key == calls[j].key
    requires calls[j].at < calls[i].at + MINUTE
    ensures Burst(calls, i) < Burst(calls, j)
    decreases j
  {
    var p := Previous(calls, j, calls[j].key).value;
    if i < p {
      BurstGrows(calls, i, p);
    }
  }

  /** Distinct positive numbers up to n: at most n of them. */
  lemma {:induction false} AtMost(s: set<nat>, f: map<nat, nat>, n: nat)
    requires forall i :: i in s ==> i in f && 1 <= f[i] <= n
    requires forall i, j :: i in s && j in s && i != j ==> f[i] != f[j]
    ensures |s| <= n
  {
    if n == 0 {
      assert s == {};
    } else if exists i :: i in s && f[i] == n {
      var i :| i in s && f[i] == n;
      AtMost(s - {i}, f, n - 1);
    } else {
      AtMost(s, f, n - 1);
    }
  }

  /** Over every trace, in any half-open interval of one minute, at most 600 calls of a key are
      accepted. */
  lemma SlidingWindow(calls: seq<Call>, key: string, t: int)
    requires InOrder(calls)
    ensures |Window(calls, key, t)| <= 600
  {
    var s := Window(calls, key, t);
    var f := map i | i in s :: Burst(calls, i);
    forall i | i in s ensures 1 <= f[i] <= LIMIT {
      AcceptedIffEarlyInBurst(calls, i);
    }
    forall i, j | i in s && j in s && i != j ensures f[i] != f[j] {
      if i < j { BurstGrows(calls, i, j); } else { BurstGrows(calls, j, i); }
    }
    AtMost(s, f, LIMIT);
  }

  /** The calls of key before position i. */
  ghost function Earlier(calls: seq<Call>, key: string, i: nat): set<nat>
    requires i <= |calls|
  {
    set j | 0 <= j < i && calls[j].key == key
  }

  /** Every call of key comes less than a minute after its previous one. */
  ghost predicate Steady(calls: seq<Call>, key: string)
  {
    forall i :: 0 <= i < |calls| && calls[i].key == key && Previous(calls, i, key).Some? ==>
      calls[i].at < calls[Previous(calls, i, key).value].at + MINUTE
  }

  /** Rejected calls count and renew the expiry too, so a key that never pauses for a full minute
      gets its first 600 calls and nothing after that, however slowly it calls and whatever other
      keys do. */
  lemma {:induction false} SteadyTrafficIsCutOff(calls: seq<Call>, i: nat)
    requires i < |calls| && Steady(calls, calls[i].key)
    ensures Accepted(calls, i) <==> |Earlier(calls, calls[i].key, i)| < 600
  {
    SteadyBurst(calls, i);
    AcceptedIffEarlyInBurst(calls, i);
  }

  lemma {:induction false} EarlierFromPrevious(calls: seq<Call>, key: string, i: nat)
    requires i <= |calls|
    ensures match Previous(calls, i, key)
      case None => |Earlier(calls, key, i)| == 0
      case Some(p) => |Earlier(calls, key, i)| == |Earlier(calls, key, p)| + 1
  {
    match Previous(calls, i, key)
    case None => assert Earlier(calls, key, i) == {};
    case Some(p) => assert Earlier(calls, key, i) == Earlier(calls, key, p) + {p};
  }

  lemma {:induction false} SteadyBurst(calls: seq<Call>, i: nat)
    requires i < |calls| && Steady(calls, calls[i].key)
    ensures Burst(calls, i) == |Earlier(calls, calls[i].key, i)| + 1
  {
    EarlierFromPrevious(calls, calls[i].key, i);
    var p := Previous(calls, i, calls[i].key);
    if p.Some? {
      SteadyBurst(calls, p.value);
    }
  }

  /** After a full idle minute the next call is always let through. */
  lemma IdleMinuteResets(calls: seq<Call>, i: nat)
    requires i < |calls|
    requires forall j :: 0 <= j < i && calls[j].key == calls[i].key ==> calls[j].at + MINUTE <= calls[i].at
    ensures Accepted(calls, i)
  {
    AcceptedIffEarlyInBurst(calls, i);
  }

  // ---- The limiter as an object ---------------------------------------------------------

  class Limiter {
    var counters: Counters
    /** False for the no-op L2 and while Redis fails: the count then reads as 0. */
    var working: bool
    /** The calls that reached Redis. */
    ghost var trace: seq<Call>

    /** The counters are what the trace of calls leaves behind. */
    ghost predicate Valid()
      reads this
    {
      counters == After(trace)
    }

    constructor (working: bool)
      ensures Valid() && trace == [] && this.working == working
    {
      counters, this.working, trace := map[], working, [];
    }

    /** With the one-minute lifetime that every caller passes, the count is the call's place among
        those of its key since it was last idle for a minute. */
    method IncrRateLimit(key: string, ttl: int, now: int) returns (count: nat)
      requires Valid()
      modifies this`counters, this`trace
      ensures working ==> trace == old(trace) + [Call(key, now)] && counters == Incr(old(counters), key, ttl, now).0
      ensures working && ttl == MINUTE ==> Valid() && count == Burst(trace, |trace| - 1)
      ensures !working ==> Valid() && trace == old(trace) && counters == old(counters) && count == 0
    {
      if !working {
        return 0;
      }
      count := if key in counters && now < counters[key].expiresAt then counters[key].count + 1 else 1;
      counters := counters[key := Counter(count, now + ttl)];
      ghost var was := trace;
      trace := trace + [Call(key, now)];
      assert trace[..|trace| - 1] == was;
      NewestBurst(was, key, now);
    }

    /** The gate in Exec and resolveDB: a call passes exactly when it is among the first 600 since
        its key was last idle for a minute, or when there is no Redis to count it. */
    method Allow(key: string, now: int) returns (allowed: bool)
      requires Valid()
      modifies this`counters, this`trace
      ensures Valid()
      ensures working ==>
        trace == old(trace) + [Call(key, now)] && (allowed <==> Burst(trace, |trace| - 1) <= 600)
      ensures !working ==> allowed && trace == old(trace)
    {
      var count := IncrRateLimit(key, MINUTE, now);
      allowed := count <= LIMIT;
    }
  }

  /** The count a new call gets is its place in the burst. */
  lemma {:induction false} NewestBurst(calls: seq<Call>, key: string, now: int)
    ensures Burst(calls + [Call(key, now)], |calls|) == Incr(After(calls), key, MINUTE, now).1
  {
    var all := calls + [Call(key, now)];
    assert all[..|calls|] == calls;
    CounterIsBurst(all, |calls|, key);
  }
}
