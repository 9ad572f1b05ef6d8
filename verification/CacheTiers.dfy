/** The two-tier cache client (server/cache/memory.go): an in-process L1 with a fixed lifetime in
    front of an L2 whose lifetime the caller chooses. Times are milliseconds. */
module CacheTiers {
  import opened Prelude

  const MINUTE: int := 60_000

  /** How long any value stays in L1. */
  const L1_TTL: int := 5 * MINUTE

  datatype Entry<V> = Entry(value: V, expiresAt: int)

  type Tier<V> = map<string, Entry<V>>

  predicate Live<V>(t: Tier<V>, k: string, now: int)
  {
    k in t && now <= t[k].expiresAt
  }

  /** One process's view: its own L1, and the shared L2, which may be the no-op client. */
  datatype Cache<V> = Cache(l1: Tier<V>, l2: Tier<V>, hasL2: bool)

  /** Write both tiers. */
  function Set<V>(c: Cache<V>, k: string, v: V, ttl: int, now: int): Cache<V>
  {
    c.(l1 := c.l1[k := Entry(v, now + L1_TTL)],
       l2 := if c.hasL2 then c.l2[k := Entry(v, now + ttl)] else c.l2)
  }

  /** L1 first, untouched by the hit; then L2, copying a hit into L1. */
  function Get<V>(c: Cache<V>, k: string, now: int): (Cache<V>, Option<V>)
  {
    if Live(c.l1, k, now) then (c, Some(c.l1[k].value))
    else if Live(c.l2, k, now) then (c.(l1 := c.l1[k := Entry(c.l2[k].value, now + L1_TTL)]), Some(c.l2[k].value))
    else (c, None)
  }

  function Delete<V>(c: Cache<V>, k: string): Cache<V>
  {
    c.(l1 := c.l1 - {k}, l2 := c.l2 - {k})
  }

  // ---- One process: a map that may forget -----------------------------------------------

  /** What can happen to the client of one process. Forgetting covers capacity eviction, the
      janitor, and Redis dropping keys. */
  datatype Event<V> =
    | DoSet(k: string, v: V, ttl: int)
    | DoGet(k: string)
    | DoDelete(k: string)
    | ForgetL1(k: string)
    | ForgetL2(k: string)

  function Step<V>(c: Cache<V>, e: Event<V>, now: int): Cache<V>
  {
    match e
    case DoSet(k, v, ttl) => Set(c, k, v, ttl, now)
    case DoGet(k) => Get(c, k, now).0
    case DoDelete(k) => Delete(c, k)
    case ForgetL1(k) => c.(l1 := c.l1 - {k})
    case ForgetL2(k) => c.(l2 := c.l2 - {k})
  }

  /** The client after a run of timed events. */
  function Run<V>(hasL2: bool, events: seq<(int, Event<V>)>): Cache<V>
  {
    if events == [] then Cache(map[], map[], hasL2)
    else
      var last := events[|events| - 1];
      Step(Run(hasL2, events[..|events| - 1]), last.1, last.0)
  }

  /** The map the client stands for: Set writes it, Delete clears it, nothing else touches it. */
  function LastSet<V>(events: seq<(int, Event<V>)>): map<string, V>
  {
    if events == [] then map[]
    else
      var m := LastSet(events[..|events| - 1]);
      match events[|events| - 1].1
      case DoSet(k, v, _) => m[k := v]
      case DoDelete(k) => m - {k}
      case _ => m
  }

  ghost predicate Agrees<V>(t: Tier<V>, m: map<string, V>)
  {
    forall k :: k in t ==> k in m && t[k].value == m[k]
  }

  lemma {:induction false} TiersAgree<V>(hasL2: bool, events: seq<(int, Event<V>)>)
    ensures Agrees(Run(hasL2, events).l1, LastSet(events))
    ensures Agrees(Run(hasL2, events).l2, LastSet(events))
    ensures Run(hasL2, events).hasL2 == hasL2
    ensures !hasL2 ==> Run(hasL2, events).l2 == map[]
  {
    if events != [] {
      TiersAgree(hasL2, events[..|events| - 1]);
    }
  }

  /** A Get returns nothing, or the value of the last Set since the last Delete. */
  lemma {:induction false} GetIsForgetfulLookup<V>(hasL2: bool, events: seq<(int, Event<V>)>, k: string, now: int)
    ensures var found := Get(Run(hasL2, events), k, now).1;
      found == None || (k in LastSet(events) && found == Some(LastSet(events)[k]))
  {
    TiersAgree(hasL2, events);
  }

  /** And it does return it, if no tier was made to forget k and the L1 or L2 lifetime of that
      Set has not run out, whatever was read or written under other keys in between. */
  lemma {:induction false} GetAfterSet<V>(
    hasL2: bool, before: seq<(int, Event<V>)>, at: int, k: string, v: V, ttl: int,
    after: seq<(int, Event<V>)>, now: int)
    requires forall i :: 0 <= i < |after| ==> after[i].0 >= at && Spares(after[i].1, k)
    requires now <= at + L1_TTL || (hasL2 && now <= at + ttl)
    ensures Get(Run(hasL2, before + [(at, DoSet(k, v, ttl))] + after), k, now).1 == Some(v)
  {
    KeptSinceSet(hasL2, before, at, k, v, ttl, after);
  }

  predicate Spares<V>(e: Event<V>, k: string)
  {
    e.DoGet? || e.k != k
  }

  lemma {:induction false} KeptSinceSet<V>(
    hasL2: bool, before: seq<(int, Event<V>)>, at: int, k: string, v: V, ttl: int, after: seq<(int, Event<V>)>)
    requires forall i :: 0 <= i < |after| ==> after[i].0 >= at && Spares(after[i].1, k)
    ensures var c := Run(hasL2, before + [(at, DoSet(k, v, ttl))] + after);
      && k in c.l1 && c.l1[k].value == v && c.l1[k].expiresAt >= at + L1_TTL
      && (hasL2 ==> k in c.l2 && c.l2[k] == Entry(v, at + ttl))
      && c.hasL2 == hasL2 && (!hasL2 ==> c.l2 == map[])
  {
    var all := before + [(at, DoSet(k, v, ttl))] + after;
    if after == [] {
      assert all[..|all| - 1] == before;
      TiersAgree(hasL2, before);
    } else {
      assert all[..|all| - 1] == before + [(at, DoSet(k, v, ttl))] + after[..|after| - 1];
      assert all[|all| - 1] == after[|after| - 1];
      KeptSinceSet(hasL2, before, at, k, v, ttl, after[..|after| - 1]);
    }
  }

  /** Reading, however often and under whatever keys, leaves L2 as it is, and leaves every L1 entry
      that stays alive with the expiry it had: no hit lengthens a life. */
  lemma {:induction false} ReadsNeverExtend<V>(
    hasL2: bool, before: seq<(int, Event<V>)>, gets: seq<(int, Event<V>)>, k: string, now: int)
    requires forall i :: 0 <= i < |gets| ==> gets[i].1.DoGet? && gets[i].0 <= now
    ensures Run(hasL2, before + gets).l2 == Run(hasL2, before).l2
    ensures Live(Run(hasL2, before).l1, k, now) ==>
      k in Run(hasL2, before + gets).l1 && Run(hasL2, before + gets).l1[k] == Run(hasL2, before).l1[k]
  {
    var all := before + gets;
    if gets == [] {
      assert all == before;
    } else {
      assert all[..|all| - 1] == before + gets[..|gets| - 1];
      assert all[|all| - 1] == gets[|gets| - 1];
      ReadsNeverExtend(hasL2, before, gets[..|gets| - 1], k, now);
    }
  }

  // ---- The client as objects ------------------------------------------------------------

  /** One TTL map: the ttlcache library in L1, the Redis keyspace in L2. */
  class TtlMap<V> {
    var items: Tier<V>

    constructor ()
      ensures items == map[]
    {
      items := map[];
    }

    method Put(k: string, v: V, ttl: int, now: int)
      modifies this
      ensures items == old(items)[k := Entry(v, now + ttl)]
    {
      items := items[k := Entry(v, now + ttl)];
    }

    /** A hit does not extend the entry's lifetime. */
    method Find(k: string, now: int) returns (r: Option<V>)
      ensures r == if Live(items, k, now) then Some(items[k].value) else None
    {
      r := if k in items && now <= items[k].expiresAt then Some(items[k].value) else None;
    }

    method Drop(k: string)
      modifies this
      ensures items == old(items) - {k}
    {
      items := items - {k};
    }
  }

  /** tieredClient, for one kind of value. */
  class TieredClient<V> {
    const l1: TtlMap<V>
    const l2: TtlMap<V>
    const hasL2: bool

    ghost predicate Valid()
      reads l1, l2
    {
      l1 != l2 && (!hasL2 ==> l2.items == map[])
    }

    ghost function View(): Cache<V>
      reads l1, l2
    {
      Cache(l1.items, l2.items, hasL2)
    }

    /** A fresh L1 over the given L2; without Redis the L2 stays empty. */
    constructor (l2: TtlMap<V>, hasL2: bool)
      requires !hasL2 ==> l2.items == map[]
      ensures Valid() && View() == Cache(map[], l2.items, hasL2) && fresh(l1) && this.l2 == l2
    {
      this.l1 := new TtlMap();
      this.l2, this.hasL2 := l2, hasL2;
    }

    method SetKey(k: string, v: V, ttl: int, now: int)
      requires Valid()
      modifies l1, l2
      ensures Valid() && View() == Set(old(View()), k, v, ttl, now)
    {
      l1.Put(k, v, L1_TTL, now);
      if hasL2 {
        l2.Put(k, v, ttl, now);
      }
    }

    method GetKey(k: string, now: int) returns (r: Option<V>)
      requires Valid()
      modifies l1
      ensures Valid() && (View(), r) == Get(old(View()), k, now)
    {
      r := l1.Find(k, now);
      if r.None? {
        r := l2.Find(k, now);
        if r.Some? {
          l1.Put(k, r.value, L1_TTL, now);
        }
      }
    }

    method DeleteKey(k: string)
      requires Valid()
      modifies l1, l2
      ensures Valid() && View() == Delete(old(View()), k)
    {
      l1.Drop(k);
      l2.Drop(k);
    }
  }
}
