/** The cached database list across processes: each has its own L1, all share one L2 and one
    registry. A change drops the list in L2 and in the L1 of the process that made it; the other
    processes may serve an older list, but never one older than an L1 lifetime. As in one process,
    no call of the run reaches the registry's own file. */
module ListCluster {
  import opened Prelude
  import opened Lifecycle
  import opened RegistryFile
  import opened CacheTiers
  import opened ListCache

  /** layout is how the table lies in the registry's file; it never changes. */
  datatype Cluster = Cluster(
    layout: Codec, now: int, dir: Dir, l1s: map<nat, Tier<Json>>, l2: Tier<Json>, hasL2: bool)

  datatype Happening =
    | Tick(dt: nat)
    | CallBy(p: nat, op: Op)
    | ListBy(p: nat, owner: string)
    | LoseL1(p: nat, k: string)
    | LoseL2(k: string)

  function L1Of(c: Cluster, p: nat): Tier<Json>
  {
    if p in c.l1s then c.l1s[p] else map[]
  }

  function CacheOf(c: Cluster, p: nat): Cache<Json>
  {
    Cache(L1Of(c, p), c.l2, c.hasL2)
  }

  function Table(c: Cluster): seq<Row>
  {
    Rows(c.layout, c.dir)
  }

  function Put(c: Cluster, p: nat, cache: Cache<Json>): Cluster
  {
    c.(l1s := c.l1s[p := cache.l1], l2 := cache.l2)
  }

  function Answer(c: Cluster, p: nat, owner: string): seq<Row>
  {
    List(CacheOf(c, p), Table(c), owner, c.now).1
  }

  function Move(c: Cluster, h: Happening): Cluster
  {
    match h
    case Tick(dt) => c.(now := c.now + dt)
    case CallBy(p, op) =>
      Put(c, p, Drop(CacheOf(c, p), Dropped(c.layout, c.dir, op))).(dir := Act(c.layout, c.dir, op).0)
    case ListBy(p, owner) => Put(c, p, List(CacheOf(c, p), Table(c), owner, c.now).0)
    case LoseL1(p, k) => c.(l1s := c.l1s[p := L1Of(c, p) - {k}])
    case LoseL2(k) => c.(l2 := c.l2 - {k})
  }

  function Cold(layout: Codec, now: int, dir: Dir, hasL2: bool): Cluster
  {
    Cluster(layout, now, dir, map[], map[], hasL2)
  }

  function At(c: Cluster, hs: seq<Happening>): Cluster
  {
    if hs == [] then c else Move(At(c, hs[..|hs| - 1]), hs[|hs| - 1])
  }

  /** No call of the run reaches the registry's file. */
  ghost predicate KeepsOff(c: Cluster, hs: seq<Happening>)
  {
    hs == [] || (
      var prev, h := hs[..|hs| - 1], hs[|hs| - 1];
      KeepsOff(c, prev) && (h.CallBy? ==> !Reaches(c.layout, At(c, prev).dir, h.op)))
  }

  // ---- Where cached lists come from -----------------------------------------------------

  /** The list is the owner's, sizes apart, as it was at position j of the run. */
  ghost predicate ListedAt(c: Cluster, hs: seq<Happening>, j: nat, owner: string, rows: seq<Row>)
    requires j <= |hs|
  {
    NoSize(rows) == NoSize(Query(Table(At(c, hs[..j])), owner))
  }

  /** Some moment no more than an L1 lifetime before exp had this list. */
  ghost predicate Backed(c: Cluster, hs: seq<Happening>, owner: string, rows: seq<Row>, exp: int)
  {
    exists j :: 0 <= j <= |hs| && ListedAt(c, hs, j, owner, rows) && exp <= At(c, hs[..j]).now + L1_TTL
  }

  ghost predicate L1Backed(c: Cluster, hs: seq<Happening>, t: Tier<Json>, owner: string)
  {
    ListKey(owner) in t ==>
      Backed(c, hs, owner, Unmarshal(t[ListKey(owner)].value), t[ListKey(owner)].expiresAt)
  }

  lemma BackedLater(c: Cluster, hs: seq<Happening>, h: Happening, owner: string, rows: seq<Row>, exp: int)
    requires Backed(c, hs, owner, rows, exp)
    ensures Backed(c, hs + [h], owner, rows, exp)
  {
    var j :| 0 <= j <= |hs| && ListedAt(c, hs, j, owner, rows) && exp <= At(c, hs[..j]).now + L1_TTL;
    assert (hs + [h])[..j] == hs[..j];
    assert ListedAt(c, hs + [h], j, owner, rows);
  }

  lemma {:induction false} BackedNow(c: Cluster, hs: seq<Happening>, owner: string, rows: seq<Row>)
    requires NoSize(rows) == NoSize(Query(Table(At(c, hs)), owner))
    ensures Backed(c, hs, owner, rows, At(c, hs).now + L1_TTL)
  {
    assert hs[..|hs|] == hs;
    assert ListedAt(c, hs, |hs|, owner, rows);
  }

  /** L2 is current; every L1 entry is backed. */
  ghost predicate Held(c: Cluster, hs: seq<Happening>, d: Cluster)
  {
    && d.layout == c.layout && Unique(Table(d))
    && (forall owner {:trigger ListKey(owner)} :: TierCurrent(d.l2, Table(d), owner))
    && (forall p, owner {:trigger L1Backed(c, hs, L1Of(d, p), owner)} :: L1Backed(c, hs, L1Of(d, p), owner))
  }

  /** What a list caches in L2 is what the query returns now. */
  lemma ListL2(cache: Cache<Json>, rows: seq<Row>, owner: string, now: int, o: string)
    requires TierCurrent(cache.l2, rows, o)
    ensures TierCurrent(List(cache, rows, owner, now).0.l2, rows, o)
  {
    if o != owner && ListKey(o) == ListKey(owner) {
      ListKeyInjective(o, owner);
    }
  }

  /** A list writes under its own owner's key only. */
  lemma ListL1Elsewhere(cache: Cache<Json>, rows: seq<Row>, owner: string, now: int, o: string)
    requires o != owner
    ensures var t, t' := cache.l1, List(cache, rows, owner, now).0.l1;
      (ListKey(o) in t' <==> ListKey(o) in t) && (ListKey(o) in t ==> t'[ListKey(o)] == t[ListKey(o)])
  {
    if ListKey(o) == ListKey(owner) {
      ListKeyInjective(o, owner);
    }
  }

  lemma {:induction false} OwnListBacked(c: Cluster, hs: seq<Happening>, p: nat, owner: string)
    requires var d := At(c, hs);
      TierCurrent(d.l2, Table(d), owner) && L1Backed(c, hs, L1Of(d, p), owner)
    ensures var d := At(c, hs);
      L1Backed(c, hs, List(CacheOf(d, p), Table(d), owner, d.now).0.l1, owner)
  {
    var d := At(c, hs);
    var k := ListKey(owner);
    if !Live(L1Of(d, p), k, d.now) {
      if Live(d.l2, k, d.now) && d.l2[k].value.Null? {
        BackedNow(c, hs, owner, []);
      } else {
        BackedNow(c, hs, owner, Query(Table(d), owner));
      }
    }
  }

  lemma {:induction false} ListL1(c: Cluster, hs: seq<Happening>, p: nat, owner: string, o: string)
    requires var d := At(c, hs); TierCurrent(d.l2, Table(d), owner) && L1Backed(c, hs, L1Of(d, p), o)
    ensures var d := At(c, hs); L1Backed(c, hs, List(CacheOf(d, p), Table(d), owner, d.now).0.l1, o)
  {
    var d := At(c, hs);
    if o == owner {
      OwnListBacked(c, hs, p, owner);
    } else {
      ListL1Elsewhere(CacheOf(d, p), Table(d), owner, d.now, o);
    }
  }

  lemma {:induction false} ListHeld(c: Cluster, hs: seq<Happening>, p: nat, owner: string)
    requires Held(c, hs, At(c, hs))
    ensures Held(c, hs, Move(At(c, hs), ListBy(p, owner)))
  {
    var d := At(c, hs);
    var cache := List(CacheOf(d, p), Table(d), owner, d.now).0;
    assert TierCurrent(d.l2, Table(d), owner);
    forall o ensures TierCurrent(cache.l2, Table(d), o) {
      assert TierCurrent(d.l2, Table(d), o);
      ListL2(CacheOf(d, p), Table(d), owner, d.now, o);
    }
    forall o ensures L1Backed(c, hs, cache.l1, o) {
      assert L1Backed(c, hs, L1Of(d, p), o);
      ListL1(c, hs, p, owner, o);
    }
    PutHeld(c, hs, d, p, cache);
  }

  /** Writing back a cache that is current in L2 and backed in L1. */
  lemma PutHeld(c: Cluster, hs: seq<Happening>, d: Cluster, p: nat, cache: Cache<Json>)
    requires Held(c, hs, d)
    requires forall o {:trigger ListKey(o)} :: TierCurrent(cache.l2, Table(d), o)
    requires forall o {:trigger L1Backed(c, hs, cache.l1, o)} :: L1Backed(c, hs, cache.l1, o)
    ensures Held(c, hs, Put(d, p, cache))
  {
    var e := Put(d, p, cache);
    forall o ensures TierCurrent(e.l2, Table(e), o) {
      assert TierCurrent(cache.l2, Table(d), o);
    }
    forall q, o ensures L1Backed(c, hs, L1Of(e, q), o) {
      if q == p {
        assert L1Of(e, q) == cache.l1;
        assert L1Backed(c, hs, cache.l1, o);
      } else {
        assert L1Of(e, q) == L1Of(d, q);
        assert L1Backed(c, hs, L1Of(d, q), o);
      }
    }
  }

  /** A call drops exactly the lists it changes from L2. */
  lemma {:induction false} CallHeld(c: Cluster, hs: seq<Happening>, p: nat, op: Op)
    requires Held(c, hs, At(c, hs)) && Faithful(c.layout) && !Reaches(c.layout, At(c, hs).dir, op)
    ensures Held(c, hs, Move(At(c, hs), CallBy(p, op)))
  {
    var d := At(c, hs);
    var e := Move(d, CallBy(p, op));
    var owners := Dropped(d.layout, d.dir, op);
    UniqueIn(d.layout, d.dir, op);
    forall o ensures TierCurrent(e.l2, Table(e), o) {
      assert TierCurrent(d.l2, Table(d), o);
      if o in owners {
        assert ListKey(o) in Keys(owners);
      } else {
        UnchangedUnlessDropped(d.layout, d.dir, op, o);
      }
    }
    forall q, o ensures L1Backed(c, hs, L1Of(e, q), o) {
      assert L1Backed(c, hs, L1Of(d, q), o);
    }
  }

  lemma {:induction false} OtherHeld(c: Cluster, hs: seq<Happening>, h: Happening)
    requires Held(c, hs, At(c, hs)) && !h.CallBy? && !h.ListBy?
    ensures Held(c, hs, Move(At(c, hs), h))
  {
    var d := At(c, hs);
    var e := Move(d, h);
    forall o ensures TierCurrent(e.l2, Table(e), o) {
      assert TierCurrent(d.l2, Table(d), o);
    }
    forall q, o ensures L1Backed(c, hs, L1Of(e, q), o) {
      assert L1Backed(c, hs, L1Of(d, q), o);
    }
  }

  lemma {:induction false} AlwaysHeld(c: Cluster, hs: seq<Happening>)
    requires c == Cold(c.layout, c.now, c.dir, c.hasL2) && Unique(Table(c))
    requires Faithful(c.layout) && KeepsOff(c, hs)
    ensures Held(c, hs, At(c, hs))
  {
    if hs == [] {
      forall o ensures TierCurrent(c.l2, Table(c), o) {}
      forall q, o ensures L1Backed(c, hs, L1Of(c, q), o) {}
    } else {
      var prev, h := hs[..|hs| - 1], hs[|hs| - 1];
      assert hs == prev + [h];
      AlwaysHeld(c, prev);
      match h {
        case CallBy(p, op) => CallHeld(c, prev, p, op);
        case ListBy(p, owner) => ListHeld(c, prev, p, owner);
        case _ => OtherHeld(c, prev, h);
      }
      HeldLater(c, prev, h);
    }
  }

  lemma {:induction false} HeldLater(c: Cluster, prev: seq<Happening>, h: Happening)
    requires Held(c, prev, At(c, prev + [h]))
    ensures Held(c, prev + [h], At(c, prev + [h]))
  {
    var d := At(c, prev + [h]);
    forall o ensures TierCurrent(d.l2, Table(d), o) {
      assert TierCurrent(At(c, prev + [h]).l2, Table(d), o);
    }
    forall q, o ensures L1Backed(c, prev + [h], L1Of(d, q), o) {
      assert L1Backed(c, prev, L1Of(d, q), o);
      var t, k := L1Of(d, q), ListKey(o);
      if k in t {
        BackedLater(c, prev, h, o, Unmarshal(t[k].value), t[k].expiresAt);
      }
    }
  }

  lemma {:induction false} TimeMovesForward(c: Cluster, hs: seq<Happening>, j: nat)
    requires j <= |hs|
    ensures At(c, hs[..j]).now <= At(c, hs).now
  {
    if j < |hs| {
      TimeMovesForward(c, hs[..|hs| - 1], j);
      assert hs[..|hs| - 1][..j] == hs[..j];
    } else {
      assert hs[..j] == hs;
    }
  }

  // ---- How old an answer can be ---------------------------------------------------------

  /** Whatever any process answers, the direct query gave that list, sizes apart, at some moment no
      more than an L1 lifetime earlier. */
  lemma BoundedListStaleness(layout: Codec, now: int, dir: Dir, hasL2: bool, hs: seq<Happening>, p: nat, owner: string)
    returns (j: nat)
    requires Faithful(layout) && Unique(Rows(layout, dir)) && KeepsOff(Cold(layout, now, dir, hasL2), hs)
    ensures j <= |hs|
    ensures var c := Cold(layout, now, dir, hasL2);
      var past, t := At(c, hs[..j]), At(c, hs).now;
      && ListedAt(c, hs, j, owner, Answer(At(c, hs), p, owner))
      && t - 300_000 <= past.now <= t
  {
    var c := Cold(layout, now, dir, hasL2);
    var d := At(c, hs);
    AlwaysHeld(c, hs);
    assert TierCurrent(d.l2, Table(d), owner);
    assert L1Backed(c, hs, L1Of(d, p), owner);
    var rows, exp := Answer(d, p, owner), d.now + L1_TTL;
    if Live(L1Of(d, p), ListKey(owner), d.now) {
      exp := L1Of(d, p)[ListKey(owner)].expiresAt;
    } else {
      BackedNow(c, hs, owner, rows);
    }
    assert Backed(c, hs, owner, rows, exp);
    j :| 0 <= j <= |hs| && ListedAt(c, hs, j, owner, rows) && exp <= At(c, hs[..j]).now + L1_TTL;
    TimeMovesForward(c, hs, j);
  }

  /** So more than an L1 lifetime after a change, no process answers with a list from before it. */
  lemma ChangeReachesEveryProcess(
    layout: Codec, now: int, dir: Dir, hasL2: bool, before: seq<Happening>, after: seq<Happening>, p: nat, owner: string)
    returns (j: nat)
    requires Faithful(layout) && Unique(Rows(layout, dir))
    requires KeepsOff(Cold(layout, now, dir, hasL2), before + after)
    requires var c := Cold(layout, now, dir, hasL2); At(c, before + after).now > At(c, before).now + 300_000
    ensures |before| < j <= |before + after|
    ensures var c := Cold(layout, now, dir, hasL2);
      ListedAt(c, before + after, j, owner, Answer(At(c, before + after), p, owner))
  {
    var c, hs := Cold(layout, now, dir, hasL2), before + after;
    j := BoundedListStaleness(layout, now, dir, hasL2, hs, p, owner);
    assert hs[..|before|] == before;
    if j <= |before| {
      assert hs[..j] == before[..j];
      TimeMovesForward(c, before, j);
    }
  }

  /** The bound is met: after a process has listed, another one's insertion does not show in its
      list for a whole L1 lifetime. */
  lemma {:induction false} StaleForALifetime(layout: Codec, now: int, dir: Dir, hasL2: bool, row: Row, p: nat, q: nat)
    requires Faithful(layout) && Unique(Rows(layout, dir) + [row]) && row.status != "deleted" && p != q
    ensures var c := At(Cold(layout, now, dir, hasL2), [ListBy(p, row.owner), CallBy(q, Insert(row)), Tick(300_000)]);
      && c.now == now + 300_000
      && Answer(c, p, row.owner) == Query(Rows(layout, dir), row.owner)
      && row in Query(Table(c), row.owner) && row !in Answer(c, p, row.owner)
  {
    var hs := [ListBy(p, row.owner), CallBy(q, Insert(row)), Tick(300_000)];
    var c0, rows := Cold(layout, now, dir, hasL2), Rows(layout, dir);
    assert hs[..3] == hs && hs[..0] == [];
    var c1 := OneMore(c0, hs, 0, c0);
    var c2 := OneMore(c0, hs, 1, c1);
    var c3 := OneMore(c0, hs, 2, c2);
    ListingStays(c0, p, row.owner);
    InsertionElsewhere(c1, q, row, p);
    HeldListAnswers(c3, p, row.owner, Query(rows, row.owner));
    NewInQuery(rows, row);
  }

  /** Whether a process holds this list in L1, until then. */
  ghost predicate Holds(c: Cluster, p: nat, owner: string, rows: seq<Row>, until: int)
  {
    ListKey(owner) in L1Of(c, p) && L1Of(c, p)[ListKey(owner)] == Entry(Marshal(rows), until)
  }

  lemma ListingStays(c: Cluster, p: nat, owner: string)
    requires c.l1s == map[] && c.l2 == map[]
    ensures var d := Move(c, ListBy(p, owner));
      Holds(d, p, owner, Query(Table(c), owner), c.now + L1_TTL) && d.dir == c.dir && d.layout == c.layout && d.now == c.now
  {
  }

  lemma InsertionElsewhere(c: Cluster, q: nat, row: Row, p: nat)
    requires Faithful(c.layout) && Unique(Table(c) + [row]) && p != q
    ensures var d := Move(c, CallBy(q, Insert(row)));
      L1Of(d, p) == L1Of(c, p) && Table(d) == Table(c) + [row] && d.now == c.now
  {
    SaveSeen(c.layout, c.dir, Table(c) + [row]);
  }

  lemma HeldListAnswers(c: Cluster, p: nat, owner: string, rows: seq<Row>)
    requires Holds(c, p, owner, rows, c.now)
    ensures Answer(c, p, owner) == rows
  {
  }

  lemma {:induction false} NewInQuery(rows: seq<Row>, row: Row)
    requires Unique(rows + [row]) && row.status != "deleted"
    ensures row in Query(rows + [row], row.owner) && row !in Query(rows, row.owner)
  {
    QueryOk(rows + [row], row.owner);
    QueryOk(rows, row.owner);
    NewToTheTable(rows, row);
    assert row in rows + [row];
  }

  lemma {:induction false} NewToTheTable(rows: seq<Row>, row: Row)
    requires Unique(rows + [row])
    ensures row !in rows
  {
    if rows != [] {
      assert (rows + [row])[1..] == rows[1..] + [row];
      NewToTheTable(rows[1..], row);
      FindAppended(rows[1..], row, row.slug);
    }
  }

  lemma OneMore(c: Cluster, hs: seq<Happening>, j: nat, d: Cluster) returns (e: Cluster)
    requires j < |hs| && At(c, hs[..j]) == d
    ensures At(c, hs[..j + 1]) == e == Move(d, hs[j])
  {
    assert hs[..j + 1][..j] == hs[..j];
    e := Move(d, hs[j]);
  }
}
