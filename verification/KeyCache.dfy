/** API-key validation across processes (server/auth/authorize.go): each process has its own L1,
    all share one L2, and the registry changes underneath. The result is a bound on how stale an
    accepted key can be, over every run. */
module KeyCache {
  import opened Prelude
  import opened CacheTiers

  /** How long a validated key stays in L2. */
  const API_KEY_TTL: int := 15 * MINUTE

  datatype KeyValue = KeyValue(keyId: string, owner: string, scopes: seq<string>)

  /** A row of api_keys; scopes is None when the column does not decode into a list of strings.
      (JSON null decodes, into the empty list.) */
  datatype KeyRecord = KeyRecord(id: string, owner: string, active: bool, scopes: Option<seq<string>>)

  type Registry = map<string, KeyRecord>

  /** What the registry alone would answer for a key hash. */
  function Verdict(reg: Registry, hash: string): Option<KeyValue>
  {
    if hash in reg && reg[hash].active && reg[hash].scopes.Some? then
      Some(KeyValue(reg[hash].id, reg[hash].owner, reg[hash].scopes.value))
    else None
  }

  /** ValidateTemplateKey: cache, then registry, then fill the cache. */
  function Validate(c: Cache<KeyValue>, reg: Registry, hash: string, now: int): (Cache<KeyValue>, Option<KeyValue>)
  {
    var (c', hit) := Get(c, hash, now);
    if hit.Some? then (c', hit)
    else
      match Verdict(reg, hash)
      case None => (c', None)
      case Some(v) => (Set(c', hash, v, API_KEY_TTL, now), Some(v))
  }

  class Validator {
    const client: TieredClient<KeyValue>
    var registry: Registry
    var lastUsed: map<string, int>

    constructor (client: TieredClient<KeyValue>)
      ensures this.client == client && registry == map[]
    {
      this.client, registry, lastUsed := client, map[], map[];
    }

    method ValidateTemplateKey(hash: string, now: int) returns (r: Option<KeyValue>)
      requires client.Valid()
      modifies this`lastUsed, client.l1, client.l2
      ensures client.Valid()
      ensures (client.View(), r) == Validate(old(client.View()), registry, hash, now)
      ensures Get(old(client.View()), hash, now).1.Some? ==>
        r == Get(old(client.View()), hash, now).1 && lastUsed == old(lastUsed)
      ensures Get(old(client.View()), hash, now).1.None? ==>
        (r.Some? <==> hash in registry && registry[hash].active && registry[hash].scopes.Some?)
      ensures Get(old(client.View()), hash, now).1.None? && r.None? ==>
        client.View() == old(client.View()) && lastUsed == old(lastUsed)
      ensures Get(old(client.View()), hash, now).1.None? && r.Some? ==>
        && r.value.keyId == registry[hash].id && r.value.owner == registry[hash].owner
        && registry[hash].scopes == Some(r.value.scopes)
        && client.View() == Set(old(client.View()), hash, r.value, 15 * MINUTE, now)
        && lastUsed == old(lastUsed)[registry[hash].id := now]
    {
      r := client.GetKey(hash, now);
      if r.Some? || hash !in registry || !registry[hash].active || registry[hash].scopes.None? {
        return;
      }
      var rec := registry[hash];
      lastUsed := lastUsed[rec.id := now];
      var kv := KeyValue(rec.id, rec.owner, rec.scopes.value);
      client.SetKey(hash, kv, API_KEY_TTL, now);
      r := Some(kv);
    }
  }

  // ---- Any number of processes ----------------------------------------------------------

  datatype Cluster = Cluster(now: int, registry: Registry, l1s: map<nat, Tier<KeyValue>>, l2: Tier<KeyValue>, hasL2: bool)

  datatype Event =
    | Tick(dt: nat)
    | Store(hash: string, rec: KeyRecord)      // key created, or its row changed (revocation included)
    | Erase(hash: string)
    | Check(proc: nat, hash: string)           // ValidateTemplateKey in one process
    | Evict(proc: nat, hash: string)           // DeleteAPIKey in one process
    | Forget1(proc: nat, hash: string)
    | Forget2(hash: string)

  function L1Of(s: Cluster, p: nat): Tier<KeyValue>
  {
    if p in s.l1s then s.l1s[p] else map[]
  }

  function CacheOf(s: Cluster, p: nat): Cache<KeyValue>
  {
    Cache(L1Of(s, p), s.l2, s.hasL2)
  }

  function Put(s: Cluster, p: nat, c: Cache<KeyValue>): Cluster
  {
    s.(l1s := s.l1s[p := c.l1], l2 := c.l2)
  }

  /** What process p answers for the key now. */
  function Answer(s: Cluster, p: nat, hash: string): Option<KeyValue>
  {
    Validate(CacheOf(s, p), s.registry, hash, s.now).1
  }

  function Next(s: Cluster, e: Event): Cluster
  {
    match e
    case Tick(dt) => s.(now := s.now + dt)
    case Store(hash, rec) => s.(registry := s.registry[hash := rec])
    case Erase(hash) => s.(registry := s.registry - {hash})
    case Check(p, hash) => Put(s, p, Validate(CacheOf(s, p), s.registry, hash, s.now).0)
    case Evict(p, hash) => Put(s, p, Delete(CacheOf(s, p), hash))
    case Forget1(p, hash) => s.(l1s := s.l1s[p := L1Of(s, p) - {hash}])
    case Forget2(hash) => s.(l2 := s.l2 - {hash})
  }

  /** A cluster with cold caches and any registry. */
  function Cold(now: int, registry: Registry, hasL2: bool): Cluster
  {
    Cluster(now, registry, map[], map[], hasL2)
  }

  function After(s: Cluster, events: seq<Event>): Cluster
  {
    if events == [] then s else Next(After(s, events[..|events| - 1]), events[|events| - 1])
  }

  // ---- Staleness ------------------------------------------------------------------------

  /** Some moment of the run, no more than ttl before exp, at which the registry answered v. */
  ghost predicate Backed(s: Cluster, events: seq<Event>, hash: string, v: KeyValue, exp: int, ttl: int)
  {
    exists j :: 0 <= j <= |events| && Verdict(After(s, events[..j]).registry, hash) == Some(v)
                && exp <= After(s, events[..j]).now + ttl
  }

  function MaxStaleness(hasL2: bool): int
  {
    L1_TTL + (if hasL2 then API_KEY_TTL else 0)
  }

  ghost predicate TierBacked(s: Cluster, events: seq<Event>, t: Tier<KeyValue>, ttl: int)
  {
    forall h :: h in t ==> Backed(s, events, h, t[h].value, t[h].expiresAt, ttl)
  }

  lemma BackedLater(s: Cluster, events: seq<Event>, e: Event, hash: string, v: KeyValue, exp: int, ttl: int)
    requires Backed(s, events, hash, v, exp, ttl)
    ensures Backed(s, events + [e], hash, v, exp, ttl)
  {
    var j :| 0 <= j <= |events| && Verdict(After(s, events[..j]).registry, hash) == Some(v)
             && exp <= After(s, events[..j]).now + ttl;
    assert (events + [e])[..j] == events[..j];
  }

  lemma {:induction false} BackedNow(s: Cluster, events: seq<Event>, hash: string, v: KeyValue, exp: int, ttl: int)
    requires Verdict(After(s, events).registry, hash) == Some(v) && exp <= After(s, events).now + ttl
    ensures Backed(s, events, hash, v, exp, ttl)
  {
    assert events[..|events|] == events;
  }

  /** A backed entry read up to its last moment backs a copy that lives longer by extra. */
  lemma BackedCopy(s: Cluster, events: seq<Event>, hash: string, v: KeyValue, exp: int, ttl: int, exp': int, extra: int)
    requires Backed(s, events, hash, v, exp, ttl) && exp' <= exp + extra
    ensures Backed(s, events, hash, v, exp', ttl + extra)
  {
    var j :| 0 <= j <= |events| && Verdict(After(s, events[..j]).registry, hash) == Some(v)
             && exp <= After(s, events[..j]).now + ttl;
    assert exp' <= After(s, events[..j]).now + (ttl + extra);
  }

  lemma PutBacked(s: Cluster, events: seq<Event>, t: Tier<KeyValue>, hash: string, v: KeyValue, exp: int, ttl: int)
    requires TierBacked(s, events, t, ttl) && Backed(s, events, hash, v, exp, ttl)
    ensures TierBacked(s, events, t[hash := Entry(v, exp)], ttl)
  {
  }

  lemma TierBackedLater(s: Cluster, events: seq<Event>, e: Event, t: Tier<KeyValue>, ttl: int)
    requires TierBacked(s, events, t, ttl)
    ensures TierBacked(s, events + [e], t, ttl)
  {
    forall h | h in t ensures Backed(s, events + [e], h, t[h].value, t[h].expiresAt, ttl) {
      BackedLater(s, events, e, h, t[h].value, t[h].expiresAt, ttl);
    }
  }

  /** Every cached entry is backed by the registry: an L2 entry within its own lifetime, an L1
      entry within the two lifetimes added up, since a hit in L2 can refill L1 at the last moment. */
  ghost predicate AllBacked(s: Cluster, events: seq<Event>, c: Cluster)
  {
    && TierBacked(s, events, c.l2, API_KEY_TTL)
    && (forall p {:trigger L1Of(c, p)} :: TierBacked(s, events, L1Of(c, p), MaxStaleness(c.hasL2)))
    && (!c.hasL2 ==> c.l2 == map[])
  }

  ghost predicate CacheBacked(s: Cluster, events: seq<Event>, c: Cache<KeyValue>)
  {
    && TierBacked(s, events, c.l1, MaxStaleness(c.hasL2)) && TierBacked(s, events, c.l2, API_KEY_TTL)
    && (!c.hasL2 ==> c.l2 == map[])
  }

  /** A Get leaves backed caches behind, refilled or not. */
  lemma GetBacked(s: Cluster, events: seq<Event>, c: Cache<KeyValue>, hash: string, now: int)
    requires CacheBacked(s, events, c)
    ensures CacheBacked(s, events, Get(c, hash, now).0)
  {
    if !Live(c.l1, hash, now) && Live(c.l2, hash, now) {
      var entry := c.l2[hash];
      BackedCopy(s, events, hash, entry.value, entry.expiresAt, API_KEY_TTL, now + L1_TTL, L1_TTL);
      PutBacked(s, events, c.l1, hash, entry.value, now + L1_TTL, MaxStaleness(c.hasL2));
    }
  }

  /** So does filling the cache with what the registry holds right now. */
  lemma {:induction false} SetBacked(s: Cluster, events: seq<Event>, c: Cache<KeyValue>, hash: string, v: KeyValue)
    requires CacheBacked(s, events, c) && Verdict(After(s, events).registry, hash) == Some(v)
    ensures CacheBacked(s, events, Set(c, hash, v, API_KEY_TTL, After(s, events).now))
  {
    var now := After(s, events).now;
    BackedNow(s, events, hash, v, now + L1_TTL, MaxStaleness(c.hasL2));
    PutBacked(s, events, c.l1, hash, v, now + L1_TTL, MaxStaleness(c.hasL2));
    BackedNow(s, events, hash, v, now + API_KEY_TTL, API_KEY_TTL);
    PutBacked(s, events, c.l2, hash, v, now + API_KEY_TTL, API_KEY_TTL);
  }

  /** A validation leaves backed caches behind. */
  lemma {:induction false} ValidateBacked(s: Cluster, events: seq<Event>, c: Cache<KeyValue>, hash: string)
    requires CacheBacked(s, events, c)
    ensures var a := After(s, events);
      CacheBacked(s, events, Validate(c, a.registry, hash, a.now).0)
  {
    var a := After(s, events);
    GetBacked(s, events, c, hash, a.now);
    if Get(c, hash, a.now).1.None? && Verdict(a.registry, hash).Some? {
      SetBacked(s, events, c, hash, Verdict(a.registry, hash).value);
    }
  }

  lemma PutBackedCache(s: Cluster, events: seq<Event>, a: Cluster, q: nat, c: Cache<KeyValue>)
    requires AllBacked(s, events, a) && CacheBacked(s, events, c) && c.hasL2 == a.hasL2
    ensures AllBacked(s, events, Put(a, q, c))
  {
    var b := Put(a, q, c);
    forall p: nat ensures TierBacked(s, events, L1Of(b, p), MaxStaleness(b.hasL2)) {
      assert L1Of(b, p) == if p == q then c.l1 else L1Of(a, p);
      assert TierBacked(s, events, L1Of(a, p), MaxStaleness(a.hasL2));
    }
  }

  /** The clusters one event leads to are backed by the run so far. */
  lemma {:induction false} NextBacked(s: Cluster, events: seq<Event>, e: Event)
    requires AllBacked(s, events, After(s, events))
    ensures AllBacked(s, events, Next(After(s, events), e))
  {
    var a := After(s, events);
    if e.Check? {
      var c := CacheOf(a, e.proc);
      assert TierBacked(s, events, L1Of(a, e.proc), MaxStaleness(a.hasL2));
      ValidateBacked(s, events, c, e.hash);
      PutBackedCache(s, events, a, e.proc, Validate(c, a.registry, e.hash, a.now).0);
    } else {
      OtherEventsBacked(s, events, a, e);
    }
  }

  lemma OtherEventsBacked(s: Cluster, events: seq<Event>, a: Cluster, e: Event)
    requires AllBacked(s, events, a) && !e.Check?
    ensures AllBacked(s, events, Next(a, e))
  {
    var b := Next(a, e);
    forall p: nat ensures TierBacked(s, events, L1Of(b, p), MaxStaleness(b.hasL2)) {
      assert TierBacked(s, events, L1Of(a, p), MaxStaleness(a.hasL2));
    }
  }

  lemma {:induction false} EverythingBacked(s: Cluster, events: seq<Event>)
    requires s == Cold(s.now, s.registry, s.hasL2)
    ensures AllBacked(s, events, After(s, events)) && After(s, events).hasL2 == s.hasL2
  {
    if events != [] {
      var prev, e := events[..|events| - 1], events[|events| - 1];
      assert events == prev + [e];
      EverythingBacked(s, prev);
      NextBacked(s, prev, e);
      var b := After(s, events);
      TierBackedLater(s, prev, e, b.l2, API_KEY_TTL);
      forall p: nat ensures TierBacked(s, events, L1Of(b, p), MaxStaleness(b.hasL2)) {
        TierBackedLater(s, prev, e, L1Of(b, p), MaxStaleness(b.hasL2));
      }
    }
  }

  lemma {:induction false} TimeMovesForward(s: Cluster, events: seq<Event>, j: nat)
    requires j <= |events|
    ensures After(s, events[..j]).now <= After(s, events).now
  {
    if j < |events| {
      TimeMovesForward(s, events[..|events| - 1], j);
      assert events[..|events| - 1][..j] == events[..j];
    } else {
      assert events[..j] == events;
    }
  }

  /** Whenever a process accepts a key with value v, the registry held that key active with that
      very id, owner and scopes at some moment at most 20 minutes earlier, or 5 minutes without
      Redis. */
  lemma BoundedStaleness(now: int, registry: Registry, hasL2: bool, events: seq<Event>, p: nat, hash: string, v: KeyValue)
    returns (j: nat)
    requires Answer(After(Cold(now, registry, hasL2), events), p, hash) == Some(v)
    ensures j <= |events|
    ensures var s := Cold(now, registry, hasL2);
      var past, t := After(s, events[..j]), After(s, events).now;
      && hash in past.registry
      && (var rec := past.registry[hash];
          rec.active && v.keyId == rec.id && v.owner == rec.owner && rec.scopes == Some(v.scopes))
      && t - (if hasL2 then 1_200_000 else 300_000) <= past.now <= t
  {
    var s := Cold(now, registry, hasL2);
    var c := After(s, events);
    EverythingBacked(s, events);
    assert TierBacked(s, events, L1Of(c, p), MaxStaleness(c.hasL2));
    var exp, ttl := c.now, MaxStaleness(hasL2);
    if Live(L1Of(c, p), hash, c.now) {
      exp := L1Of(c, p)[hash].expiresAt;
    } else if Live(c.l2, hash, c.now) {
      exp, ttl := c.l2[hash].expiresAt, API_KEY_TTL;
    } else {
      BackedNow(s, events, hash, v, exp, ttl);
    }
    assert Backed(s, events, hash, v, exp, ttl);
    j :| 0 <= j <= |events| && Verdict(After(s, events[..j]).registry, hash) == Some(v)
         && exp <= After(s, events[..j]).now + ttl;
    TimeMovesForward(s, events, j);
  }

  // ---- Revocation followed by eviction --------------------------------------------------

  /** No event makes the key acceptable to the registry again. */
  ghost predicate NeverReinstated(events: seq<Event>, hash: string)
  {
    forall i :: 0 <= i < |events| && events[i].Store? && events[i].hash == hash ==>
      !(events[i].rec.active && events[i].rec.scopes.Some?)
  }

  ghost predicate L1Short(c: Cluster)
  {
    forall p, h {:trigger h in L1Of(c, p)} :: h in L1Of(c, p) ==> L1Of(c, p)[h].expiresAt <= c.now + L1_TTL
  }

  lemma {:induction false} L1AlwaysShort(s: Cluster, events: seq<Event>)
    requires L1Short(s)
    ensures L1Short(After(s, events))
  {
    if events != [] {
      L1AlwaysShort(s, events[..|events| - 1]);
      L1ShortStep(After(s, events[..|events| - 1]), events[|events| - 1]);
    }
  }

  lemma L1ShortStep(c: Cluster, e: Event)
    requires L1Short(c)
    ensures L1Short(Next(c, e))
  {
    var d := Next(c, e);
    forall p, h | h in L1Of(d, p) ensures L1Of(d, p)[h].expiresAt <= d.now + L1_TTL {
      assert h in L1Of(c, p) || (e.Check? && p == e.proc && h == e.hash);
    }
  }

  /** Gone from the registry and from L2, and in no L1 beyond the deadline. */
  ghost predicate Dying(c: Cluster, hash: string, deadline: int)
  {
    && Verdict(c.registry, hash) == None && hash !in c.l2
    && (forall p {:trigger L1Of(c, p)} :: hash in L1Of(c, p) ==> L1Of(c, p)[hash].expiresAt <= deadline)
  }

  lemma DyingStep(c: Cluster, e: Event, hash: string, deadline: int)
    requires Dying(c, hash, deadline)
    requires e.Store? && e.hash == hash ==> !(e.rec.active && e.rec.scopes.Some?)
    ensures Dying(Next(c, e), hash, deadline)
  {
    var d := Next(c, e);
    forall p: nat | hash in L1Of(d, p) ensures L1Of(d, p)[hash].expiresAt <= deadline {
      assert hash in L1Of(c, p);
    }
  }

  lemma {:induction false} KeepsDying(c: Cluster, events: seq<Event>, hash: string, deadline: int)
    requires Dying(c, hash, deadline) && NeverReinstated(events, hash)
    ensures Dying(After(c, events), hash, deadline)
  {
    if events != [] {
      var prev, e := events[..|events| - 1], events[|events| - 1];
      assert NeverReinstated(prev, hash);
      KeepsDying(c, prev, hash, deadline);
      DyingStep(After(c, prev), e, hash, deadline);
    }
  }

  /** After a key is revoked and then evicted by any one process, no process accepts it more than
      an L1 lifetime later, however the calls of all processes interleave. */
  lemma {:induction false} EvictionTakesEffect(
    now: int, registry: Registry, hasL2: bool, before: seq<Event>, q: nat, hash: string, after: seq<Event>, p: nat)
    requires var reg := After(Cold(now, registry, hasL2), before).registry;
      !(hash in reg && reg[hash].active && reg[hash].scopes.Some?)
    requires NeverReinstated(after, hash)
    requires var s := Cold(now, registry, hasL2);
      Answer(After(Next(After(s, before), Evict(q, hash)), after), p, hash).Some?
    ensures var s := Cold(now, registry, hasL2);
      After(Next(After(s, before), Evict(q, hash)), after).now <= After(s, before).now + 300_000
  {
    var s := Cold(now, registry, hasL2);
    var c := After(s, before);
    var d := Next(c, Evict(q, hash));
    assert L1Short(s);
    L1AlwaysShort(s, before);
    forall r: nat | hash in L1Of(d, r) ensures L1Of(d, r)[hash].expiresAt <= c.now + L1_TTL {
      assert hash in L1Of(c, r);
    }
    KeepsDying(d, after, hash, c.now + L1_TTL);
    assert hash in L1Of(After(d, after), p);
  }

  /** Both lifetimes really add up: with Redis, a key revoked right after its first use can still
      be accepted 20 minutes later by a process that read it from L2 after 15. */
  lemma StalenessBoundIsTight(rec: KeyRecord)
    requires rec.active && rec.scopes.Some?
    ensures var s := Cold(0, map["h" := rec], true);
      var events := [Check(0, "h"), Store("h", rec.(active := false)), Tick(API_KEY_TTL as nat),
                     Check(1, "h"), Tick(L1_TTL as nat)];
      && After(s, events).now == 1_200_000
      && Answer(After(s, events), 1, "h").Some?
      && (forall j :: 2 <= j <= |events| ==>
            "h" in After(s, events[..j]).registry && !After(s, events[..j]).registry["h"].active)
  {
    var s := Cold(0, map["h" := rec], true);
    var events := [Check(0, "h"), Store("h", rec.(active := false)), Tick(API_KEY_TTL as nat),
                     Check(1, "h"), Tick(L1_TTL as nat)];
    assert After(s, events[..0]) == s;
    var s1 := OneMore(s, events, 0, s);
    var s2 := OneMore(s, events, 1, s1);
    var s3 := OneMore(s, events, 2, s2);
    var s4 := OneMore(s, events, 3, s3);
    var s5 := OneMore(s, events, 4, s4);
    assert events[..5] == events;
    assert Live(L1Of(s5, 1), "h", s5.now);
  }

  lemma OneMore(s: Cluster, events: seq<Event>, j: nat, c: Cluster) returns (d: Cluster)
    requires j < |events| && After(s, events[..j]) == c
    ensures After(s, events[..j + 1]) == d == Next(c, events[j])
  {
    assert events[..j + 1][..j] == events[..j];
    d := Next(c, events[j]);
  }
}
