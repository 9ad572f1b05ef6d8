/** The cached database list (server/db/registry.go ListDatabasesByOwner): an owner's rows, kept as
    JSON in both cache tiers for five minutes and dropped on every change to the list. In one
    process the cached list is the list a query would give, sizes apart, as long as no call moves,
    overwrites or removes the registry's own file. */
module ListCache {
  import opened Prelude
  import opened DbFiles
  import opened Lifecycle
  import opened RegistryFile
  import opened CacheTiers
  import Strings

  const LIST_TTL: int := 5 * MINUTE

  // ---- The query ------------------------------------------------------------------------

  predicate Listed(r: Row, owner: string)
  {
    r.owner == owner && r.status != "deleted"
  }

  function Select(rows: seq<Row>, owner: string): seq<Row>
  {
    if rows == [] then []
    else (if Listed(rows[0], owner) then [rows[0]] else []) + Select(rows[1..], owner)
  }

  /** Into rows sorted by created_at descending, ahead of its equals. */
  function InsertRow(r: Row, rows: seq<Row>): seq<Row>
  {
    if rows == [] || Strings.Leq(rows[0].createdAt, r.createdAt) then [r] + rows
    else [rows[0]] + InsertRow(r, rows[1..])
  }

  /** ORDER BY created_at DESC, rows of one second in rowid order. */
  function Newest(rows: seq<Row>): seq<Row>
  {
    if rows == [] then [] else InsertRow(rows[0], Newest(rows[1..]))
  }

  /** What the direct query returns. */
  function Query(rows: seq<Row>, owner: string): seq<Row>
  {
    Newest(Select(rows, owner))
  }

  ghost predicate NewestFirst(rows: seq<Row>)
  {
    forall i, j :: 0 <= i < j < |rows| ==> Strings.Leq(rows[j].createdAt, rows[i].createdAt)
  }

  lemma {:induction false} InsertRowOk(r: Row, rows: seq<Row>)
    requires NewestFirst(rows)
    ensures NewestFirst(InsertRow(r, rows)) && multiset(InsertRow(r, rows)) == multiset(rows) + multiset{r}
  {
    if rows == [] {
    } else if Strings.Leq(rows[0].createdAt, r.createdAt) {
      forall j | 0 <= j < |rows| ensures Strings.Leq(rows[j].createdAt, r.createdAt) {
        if j > 0 { Strings.LeqTrans(rows[j].createdAt, rows[0].createdAt, r.createdAt); }
      }
    } else {
      Strings.LeqTotal(r.createdAt, rows[0].createdAt);
      InsertRowOk(r, rows[1..]);
      var rest := InsertRow(r, rows[1..]);
      assert rows == [rows[0]] + rows[1..];
      forall j | 0 <= j < |rest| ensures Strings.Leq(rest[j].createdAt, rows[0].createdAt) {
        assert rest[j] in multiset(rest);
        assert rest[j] == r || rest[j] in rows[1..];
      }
    }
  }

  lemma {:induction false} NewestOk(rows: seq<Row>)
    ensures NewestFirst(Newest(rows)) && multiset(Newest(rows)) == multiset(rows)
  {
    if rows != [] {
      NewestOk(rows[1..]);
      InsertRowOk(rows[0], Newest(rows[1..]));
      assert rows == [rows[0]] + rows[1..];
    }
  }

  /** The query returns the owner's rows that are not deleted, each once, newest first. */
  lemma {:induction false} QueryOk(rows: seq<Row>, owner: string)
    ensures NewestFirst(Query(rows, owner))
    ensures forall r ::
      multiset(Query(rows, owner))[r] == if r.owner == owner && r.status != "deleted" then multiset(rows)[r] else 0
    ensures forall r :: r in Query(rows, owner) <==> r in rows && r.owner == owner && r.status != "deleted"
  {
    NewestOk(Select(rows, owner));
    SelectOk(rows, owner);
    forall r ensures r in Query(rows, owner) <==> r in rows && r.owner == owner && r.status != "deleted" {
      assert r in multiset(Query(rows, owner)) <==> r in multiset(Select(rows, owner));
      assert r in rows <==> r in multiset(rows);
    }
  }

  lemma {:induction false} SelectOk(rows: seq<Row>, owner: string)
    ensures forall r ::
      multiset(Select(rows, owner))[r] == if r.owner == owner && r.status != "deleted" then multiset(rows)[r] else 0
  {
    if rows != [] {
      SelectOk(rows[1..], owner);
      assert rows == [rows[0]] + rows[1..];
      var here := if Listed(rows[0], owner) then [rows[0]] else [];
      assert Select(rows, owner) == here + Select(rows[1..], owner);
    }
  }

  // ---- Equality up to sizes -------------------------------------------------------------

  function NoSize(rows: seq<Row>): (r: seq<Row>)
    ensures |r| == |rows|
    ensures forall i :: 0 <= i < |rows| ==> r[i] == rows[i].(size := 0)
  {
    if rows == [] then [] else [rows[0].(size := 0)] + NoSize(rows[1..])
  }

  lemma {:induction false} NoSizeJoin(a: seq<Row>, b: seq<Row>)
    ensures NoSize(a + b) == NoSize(a) + NoSize(b)
  {
  }

  lemma {:induction false} SelectNoSize(rows: seq<Row>, owner: string)
    ensures NoSize(Select(rows, owner)) == Select(NoSize(rows), owner)
  {
    if rows != [] {
      var here := if Listed(rows[0], owner) then [rows[0]] else [];
      SelectNoSize(rows[1..], owner);
      NoSizeJoin(here, Select(rows[1..], owner));
      assert NoSize(rows)[1..] == NoSize(rows[1..]);
      assert NoSize(here) == if Listed(rows[0], owner) then [rows[0].(size := 0)] else [];
    }
  }

  lemma {:induction false} InsertNoSize(r: Row, rows: seq<Row>)
    ensures NoSize(InsertRow(r, rows)) == InsertRow(r.(size := 0), NoSize(rows))
  {
    if rows != [] {
      InsertNoSize(r, rows[1..]);
      assert NoSize(rows)[1..] == NoSize(rows[1..]);
    }
  }

  lemma {:induction false} NewestNoSize(rows: seq<Row>)
    ensures NoSize(Newest(rows)) == Newest(NoSize(rows))
  {
    if rows != [] {
      NewestNoSize(rows[1..]);
      InsertNoSize(rows[0], Newest(rows[1..]));
      assert NoSize(rows)[1..] == NoSize(rows[1..]);
    }
  }

  /** Tables whose listed rows agree up to sizes give lists that agree up to sizes. */
  lemma {:induction false} SameSelectSameQuery(rows: seq<Row>, rows': seq<Row>, owner: string)
    requires Select(NoSize(rows'), owner) == Select(NoSize(rows), owner)
    ensures NoSize(Query(rows', owner)) == NoSize(Query(rows, owner))
  {
    SelectNoSize(rows, owner);
    SelectNoSize(rows', owner);
    NewestNoSize(Select(rows, owner));
    NewestNoSize(Select(rows', owner));
  }

  // ---- Which calls change whose list ----------------------------------------------------

  /** The owners whose cached list a call drops: as the code does it, on success only. */
  function Invalidated(s: Reg, op: Op): set<string>
  {
    if !Do(s, op).1 then {}
    else
      match op
      case Insert(row) => {row.owner}
      case Status(_, _) => OwnersOf(s.rows, op.slug)
      case SoftDelete(_, _, _) => OwnersOf(s.rows, op.slug)
      case Restore(_) => OwnersOf(s.rows, op.slug)
      case HardDelete(_) => OwnersOf(s.rows, op.slug)
      case _ => {}
  }

  function OwnersOf(rows: seq<Row>, slug: string): set<string>
  {
    var rec := Find(rows, slug);
    if rec.Some? then {rec.value.owner} else {}
  }

  lemma SoftDeleteDrops(s: Reg, slug: string, epoch: nat, at: string)
    ensures Invalidated(s, SoftDelete(slug, epoch, at)) ==
      if Update(s.rows, slug, MarkDeleted(Archived(slug, epoch), at)).Some? then OwnersOf(s.rows, slug) else {}
  {
    SoftDeleteIs(s, slug, epoch, at);
  }

  lemma {:induction false} RestoreDrops(s: Reg, slug: string, to: string)
    requires Find(s.rows, slug).Some?
    requires var r := Find(s.rows, slug).value; r.status == "deleted" && r.originalSlug == Some(to)
    ensures Invalidated(s, Restore(slug)) ==
      if Update(s.rows, slug, MarkRestored(to)).Some? then OwnersOf(s.rows, slug) else {}
  {
    RestoreIs(s, slug, to);
  }

  lemma {:induction false} SelectAppend(rows: seq<Row>, row: Row, owner: string)
    ensures Select(rows + [row], owner) == Select(rows, owner) + if Listed(row, owner) then [row] else []
  {
    if rows == [] {
      assert [] + [row] == [row];
    } else {
      SelectAppend(rows[1..], row, owner);
      assert (rows + [row])[1..] == rows[1..] + [row];
    }
  }

  lemma {:induction false} NoSizeAppend(rows: seq<Row>, row: Row)
    ensures NoSize(rows + [row]) == NoSize(rows) + [row.(size := 0)]
  {
  }

  /** A change to rows of another owner, or to sizes only, leaves the selection alone. */
  lemma {:induction false} SelectMapped(rows: seq<Row>, slug: string, c: Change, owner: string)
    requires c.SetSize? || forall r :: r in rows && r.slug == slug ==> r.owner != owner
    ensures Select(NoSize(Mapped(rows, slug, c)), owner) == Select(NoSize(rows), owner)
  {
    if rows != [] {
      assert rows == [rows[0]] + rows[1..];
      SelectMapped(rows[1..], slug, c, owner);
      var mapped := Mapped(rows, slug, c);
      assert mapped[1..] == Mapped(rows[1..], slug, c);
      assert NoSize(mapped)[1..] == NoSize(mapped[1..]);
      assert NoSize(rows)[1..] == NoSize(rows[1..]);
    }
  }

  lemma {:induction false} SelectWithout(rows: seq<Row>, slug: string, owner: string)
    requires forall r :: r in rows && r.slug == slug ==> r.owner != owner
    ensures Select(NoSize(Without(rows, slug)), owner) == Select(NoSize(rows), owner)
  {
    if rows != [] {
      assert rows == [rows[0]] + rows[1..];
      SelectWithout(rows[1..], slug, owner);
      assert NoSize(rows)[1..] == NoSize(rows[1..]);
      var rest := Without(rows[1..], slug);
      if rows[0].slug != slug {
        assert NoSize([rows[0]] + rest)[1..] == NoSize(rest);
      } else {
        assert Without(rows, slug) == rest;
      }
    }
  }

  /** A new row of another owner. */
  lemma InsertElsewhere(rows: seq<Row>, row: Row, owner: string)
    requires row.owner != owner
    ensures NoSize(Query(rows + [row], owner)) == NoSize(Query(rows, owner))
  {
    NoSizeAppend(rows, row);
    SelectAppend(NoSize(rows), row.(size := 0), owner);
    SameSelectSameQuery(rows, rows + [row], owner);
  }

  /** A change of size, or to a row of another owner. */
  lemma {:induction false} ChangeElsewhere(rows: seq<Row>, slug: string, c: Change, owner: string)
    requires Unique(rows) && (c.SetSize? || owner !in OwnersOf(rows, slug))
    ensures NoSize(Query(Mapped(rows, slug, c), owner)) == NoSize(Query(rows, owner))
  {
    if !c.SetSize? {
      OnlyOwner(rows, slug, owner);
    }
    SelectMapped(rows, slug, c, owner);
    SameSelectSameQuery(rows, Mapped(rows, slug, c), owner);
  }

  lemma {:induction false} DeleteElsewhere(rows: seq<Row>, slug: string, owner: string)
    requires Unique(rows) && owner !in OwnersOf(rows, slug)
    ensures NoSize(Query(Without(rows, slug), owner)) == NoSize(Query(rows, owner))
  {
    OnlyOwner(rows, slug, owner);
    SelectWithout(rows, slug, owner);
    SameSelectSameQuery(rows, Without(rows, slug), owner);
  }

  lemma InsertUnchanged(s: Reg, row: Row, owner: string)
    requires owner !in Invalidated(s, Insert(row))
    ensures NoSize(Query(Do(s, Insert(row)).0.rows, owner)) == NoSize(Query(s.rows, owner))
  {
    if Unique(s.rows + [row]) {
      InsertElsewhere(s.rows, row, owner);
    }
  }

  /** An UPDATE that drops the owner's list on success, and no list on failure. */
  lemma RowChangeUnchanged(s: Reg, slug: string, c: Change, owner: string)
    requires Unique(s.rows) && (Update(s.rows, slug, c).Some? && !c.SetSize? ==> owner !in OwnersOf(s.rows, slug))
    ensures NoSize(Query(ChangeRow(s, slug, c).0.rows, owner)) == NoSize(Query(s.rows, owner))
  {
    if Update(s.rows, slug, c).Some? {
      ChangeElsewhere(s.rows, slug, c, owner);
    }
  }

  lemma SoftDeleteUnchanged(s: Reg, slug: string, epoch: nat, at: string, owner: string)
    requires Unique(s.rows) && owner !in Invalidated(s, SoftDelete(slug, epoch, at))
    ensures NoSize(Query(Do(s, SoftDelete(slug, epoch, at)).0.rows, owner)) == NoSize(Query(s.rows, owner))
  {
    SoftDeleteDrops(s, slug, epoch, at);
    RowChangeUnchanged(s, slug, MarkDeleted(Archived(slug, epoch), at), owner);
  }

  lemma RestoreUnchanged(s: Reg, slug: string, owner: string)
    requires Unique(s.rows) && owner !in Invalidated(s, Restore(slug))
    ensures NoSize(Query(Do(s, Restore(slug)).0.rows, owner)) == NoSize(Query(s.rows, owner))
  {
    var rec := Find(s.rows, slug);
    if rec.Some? && rec.value.status == "deleted" && rec.value.originalSlug.Some? {
      RestoreDrops(s, slug, rec.value.originalSlug.value);
      RowChangeUnchanged(s, slug, MarkRestored(rec.value.originalSlug.value), owner);
    }
  }

  lemma HardDeleteUnchanged(s: Reg, slug: string, owner: string)
    requires Unique(s.rows) && owner !in Invalidated(s, HardDelete(slug))
    ensures NoSize(Query(Do(s, HardDelete(slug)).0.rows, owner)) == NoSize(Query(s.rows, owner))
  {
    var rec := Find(s.rows, slug);
    if rec.Some? && rec.value.status == "deleted" {
      DeleteElsewhere(s.rows, slug, owner);
    }
  }

  /** A call that does not drop an owner's list does not change what the owner's query returns,
      sizes apart. */
  lemma UnchangedUnlessInvalidated(s: Reg, op: Op, owner: string)
    requires Unique(s.rows) && owner !in Invalidated(s, op)
    ensures NoSize(Query(Do(s, op).0.rows, owner)) == NoSize(Query(s.rows, owner))
  {
    match op
    case Insert(row) => InsertUnchanged(s, row, owner);
    case Status(slug, status) => RowChangeUnchanged(s, slug, Change.SetStatus(status), owner);
    case Resize(slug, size) => RowChangeUnchanged(s, slug, SetSize(size), owner);
    case SoftDelete(slug, epoch, at) => SoftDeleteUnchanged(s, slug, epoch, at, owner);
    case Restore(slug) => RestoreUnchanged(s, slug, owner);
    case HardDelete(slug) => HardDeleteUnchanged(s, slug, owner);
    case _ =>
  }

  lemma {:induction false} OnlyOwner(rows: seq<Row>, slug: string, owner: string)
    requires Unique(rows)
    requires var rec := Find(rows, slug); rec.Some? ==> rec.value.owner != owner
    ensures forall r :: r in rows && r.slug == slug ==> r.owner != owner
  {
    forall r | r in rows && r.slug == slug ensures r.owner != owner {
      FindIs(rows, slug, r);
    }
  }

  // ---- The cache ------------------------------------------------------------------------

  /** What json.Marshal makes of a list: an empty result is a nil slice, hence null. */
  datatype Json = Null | Array(rows: seq<Row>)

  function Marshal(rows: seq<Row>): Json
  {
    if rows == [] then Null else Array(rows)
  }

  function Unmarshal(j: Json): seq<Row>
  {
    match j case Null => [] case Array(rows) => rows
  }

  function ListKey(owner: string): string
  {
    "MH::sh:dbs:" + owner
  }

  lemma ListKeyInjective(owner: string, owner': string)
    requires ListKey(owner) == ListKey(owner')
    ensures owner == owner'
  {
    var n := |"MH::sh:dbs:"|;
    assert owner == ListKey(owner)[n..] == ListKey(owner')[n..] == owner';
  }

  /** GetJSON into a slice of records. A hit in L2 is first read into a map, which an array does
      not fit: that is an error, which the caller treats as a miss. Null fits, and refills L1. */
  function GetJSON(c: Cache<Json>, k: string, now: int): (Cache<Json>, Option<seq<Row>>)
  {
    if Live(c.l1, k, now) then (c, Some(Unmarshal(c.l1[k].value)))
    else if Live(c.l2, k, now) && c.l2[k].value.Null? then
      (c.(l1 := c.l1[k := Entry(Null, now + L1_TTL)]), Some([]))
    else (c, None)
  }

  /** ListDatabasesByOwner: the cache, else the query, whose result is cached. */
  function List(c: Cache<Json>, rows: seq<Row>, owner: string, now: int): (Cache<Json>, seq<Row>)
  {
    var (c', hit) := GetJSON(c, ListKey(owner), now);
    if hit.Some? then (c', hit.value)
    else
      var result := Query(rows, owner);
      (Set(c', ListKey(owner), Marshal(result), LIST_TTL, now), result)
  }

  // ---- One process ----------------------------------------------------------------------

  datatype System = System(dir: Dir, cache: Cache<Json>)

  datatype Event =
    | Call(op: Op)
    | ListFor(owner: string)
    | Forget1(k: string)
    | Forget2(k: string)
    | Restart                  // the process comes back with an empty L1 and no connections

  /** Invalidated, for a table that is in its file. */
  function Dropped(c: Codec, d: Dir, op: Op): set<string>
  {
    if !Act(c, d, op).1 then {}
    else
      var rows := Rows(c, ReadIn(d, op));
      match op
      case Insert(row) => {row.owner}
      case Status(_, _) => OwnersOf(rows, op.slug)
      case SoftDelete(_, _, _) => OwnersOf(rows, op.slug)
      case Restore(_) => OwnersOf(rows, op.slug)
      case HardDelete(_) => OwnersOf(rows, op.slug)
      case _ => {}
  }

  function Next(c: Codec, s: System, e: Event, now: int): System
  {
    match e
    case Call(op) => System(Act(c, s.dir, op).0, Drop(s.cache, Dropped(c, s.dir, op)))
    case ListFor(owner) => s.(cache := List(s.cache, Rows(c, s.dir), owner, now).0)
    case Forget1(k) => s.(cache := s.cache.(l1 := s.cache.l1 - {k}))
    case Forget2(k) => s.(cache := s.cache.(l2 := s.cache.l2 - {k}))
    case Restart => System(s.dir.(conns := {}), s.cache.(l1 := map[]))
  }

  function Drop(c: Cache<Json>, owners: set<string>): Cache<Json>
  {
    c.(l1 := c.l1 - Keys(owners), l2 := c.l2 - Keys(owners))
  }

  function Keys(owners: set<string>): set<string>
  {
    set o | o in owners :: ListKey(o)
  }

  function After(c: Codec, s: System, events: seq<(int, Event)>): System
  {
    if events == [] then s
    else
      var last := events[|events| - 1];
      Next(c, After(c, s, events[..|events| - 1]), last.1, last.0)
  }

  /** No call of the run reaches the registry's file. */
  ghost predicate KeepsOff(c: Codec, s: System, events: seq<(int, Event)>)
  {
    events == [] || (
      var last := |events| - 1;
      && KeepsOff(c, s, events[..last])
      && (events[last].1.Call? ==> !Reaches(c, After(c, s, events[..last]).dir, events[last].1.op)))
  }

  ghost predicate TierCurrent(t: Tier<Json>, rows: seq<Row>, owner: string)
  {
    ListKey(owner) in t ==> NoSize(Unmarshal(t[ListKey(owner)].value)) == NoSize(Query(rows, owner))
  }

  /** Every cached list, expired or not, is the owner's current list up to sizes. */
  ghost predicate Current(c: Codec, s: System)
  {
    && Unique(Rows(c, s.dir))
    && (forall owner {:trigger ListKey(owner)} ::
          TierCurrent(s.cache.l1, Rows(c, s.dir), owner) && TierCurrent(s.cache.l2, Rows(c, s.dir), owner))
  }

  lemma DroppedSeen(c: Codec, d: Dir, op: Op)
    requires Faithful(c) && !Reaches(c, d, op)
    ensures Rows(c, Act(c, d, op).0) == Do(View(c, d), op).0.rows
    ensures Dropped(c, d, op) == Invalidated(View(c, d), op)
  {
    Simulates(c, d, op);
    if op.SoftDelete? {
      ArchiveIsNoStore(op.slug, op.epoch);
      MoveSeen(c, d, op.slug, Archived(op.slug, op.epoch), d.conns - {op.slug});
    }
  }

  /** A call that drops no list of the owner and keeps off the registry's file leaves what the
      owner's query returns as it was, sizes apart. */
  lemma UnchangedUnlessDropped(c: Codec, d: Dir, op: Op, owner: string)
    requires Faithful(c) && Unique(Rows(c, d)) && !Reaches(c, d, op) && owner !in Dropped(c, d, op)
    ensures NoSize(Query(Rows(c, Act(c, d, op).0), owner)) == NoSize(Query(Rows(c, d), owner))
  {
    DroppedSeen(c, d, op);
    UnchangedUnlessInvalidated(View(c, d), op, owner);
  }

  lemma CallKeepsCurrent(c: Codec, s: System, op: Op, now: int)
    requires Faithful(c) && Current(c, s) && !Reaches(c, s.dir, op)
    ensures Current(c, Next(c, s, Call(op), now))
  {
    var owners := Dropped(c, s.dir, op);
    var cache, rows := Drop(s.cache, owners), Rows(c, Act(c, s.dir, op).0);
    UniqueIn(c, s.dir, op);
    forall owner ensures TierCurrent(cache.l1, rows, owner) && TierCurrent(cache.l2, rows, owner) {
      assert TierCurrent(s.cache.l1, Rows(c, s.dir), owner) && TierCurrent(s.cache.l2, Rows(c, s.dir), owner);
      if owner in owners {
        assert ListKey(owner) in Keys(owners);
      } else {
        UnchangedUnlessDropped(c, s.dir, op, owner);
      }
    }
  }

  lemma ListKeepsCurrent(c: Codec, s: System, owner: string, now: int)
    requires Current(c, s)
    ensures Current(c, Next(c, s, ListFor(owner), now))
  {
    var rows := Rows(c, s.dir);
    var cache := List(s.cache, rows, owner, now).0;
    forall o ensures TierCurrent(cache.l1, rows, o) && TierCurrent(cache.l2, rows, o) {
      assert TierCurrent(s.cache.l1, rows, o) && TierCurrent(s.cache.l2, rows, o);
      if ListKey(o) == ListKey(owner) {
        ListKeyInjective(o, owner);
      }
    }
  }

  lemma NextKeepsCurrent(c: Codec, s: System, e: Event, now: int)
    requires Faithful(c) && Current(c, s) && (e.Call? ==> !Reaches(c, s.dir, e.op))
    ensures Current(c, Next(c, s, e, now))
  {
    match e
    case Call(op) => CallKeepsCurrent(c, s, op, now);
    case ListFor(owner) => ListKeepsCurrent(c, s, owner, now);
    case _ =>
      var t := Next(c, s, e, now);
      forall o ensures TierCurrent(t.cache.l1, Rows(c, t.dir), o) && TierCurrent(t.cache.l2, Rows(c, t.dir), o) {
        assert TierCurrent(s.cache.l1, Rows(c, s.dir), o) && TierCurrent(s.cache.l2, Rows(c, s.dir), o);
      }
  }

  lemma {:induction false} AlwaysCurrent(c: Codec, s: System, events: seq<(int, Event)>)
    requires Faithful(c) && Current(c, s) && KeepsOff(c, s, events)
    ensures Current(c, After(c, s, events))
  {
    if events != [] {
      var last := events[|events| - 1];
      AlwaysCurrent(c, s, events[..|events| - 1]);
      NextKeepsCurrent(c, After(c, s, events[..|events| - 1]), last.1, last.0);
    }
  }

  lemma ColdIsCurrent(c: Codec, dir: Dir, hasL2: bool)
    requires Unique(Rows(c, dir))
    ensures Current(c, System(dir, Cache(map[], map[], hasL2)))
  {
    var s := System(dir, Cache(map[], map[], hasL2));
    forall o ensures TierCurrent(s.cache.l1, Rows(c, dir), o) && TierCurrent(s.cache.l2, Rows(c, dir), o) {
    }
  }

  /** After any run of calls that keep off the registry's file, lists, cache losses and restarts,
      from cold caches, whoever lists gets what the direct query returns, sizes apart. */
  lemma {:induction false} ListIsQuery(c: Codec, dir: Dir, hasL2: bool, events: seq<(int, Event)>, owner: string, now: int)
    requires Faithful(c) && Unique(Rows(c, dir))
    requires KeepsOff(c, System(dir, Cache(map[], map[], hasL2)), events)
    ensures var s := After(c, System(dir, Cache(map[], map[], hasL2)), events);
      NoSize(List(s.cache, Rows(c, s.dir), owner, now).1) == NoSize(Query(Rows(c, s.dir), owner))
  {
    var s0 := System(dir, Cache(map[], map[], hasL2));
    ColdIsCurrent(c, dir, hasL2);
    AlwaysCurrent(c, s0, events);
    var s := After(c, s0, events);
    assert TierCurrent(s.cache.l1, Rows(c, s.dir), owner) && TierCurrent(s.cache.l2, Rows(c, s.dir), owner);
  }

  // ---- Lists that go stale --------------------------------------------------------------

  /** A list just fetched is the list cached. */
  lemma ListStays(c: Cache<Json>, rows: seq<Row>, rows': seq<Row>, owner: string, now: int)
    requires !Live(c.l1, ListKey(owner), now) && !Live(c.l2, ListKey(owner), now)
    ensures List(List(c, rows, owner, now).0, rows', owner, now).1 == Query(rows, owner)
  {
    assert Unmarshal(Marshal(Query(rows, owner))) == Query(rows, owner);
  }

  /** The owner lists, the call is made, the owner lists again. */
  function ListedTwice(c: Codec, d: Dir, op: Op, owner: string, now: int): seq<Row>
  {
    var s := Next(c, Next(c, System(d, Cache(map[], map[], false)), ListFor(owner), now), Call(op), now);
    List(s.cache, Rows(c, s.dir), owner, now).1
  }

  lemma LostStaysListed(c: Codec, d: Dir, op: Op, a: Row, now: int)
    requires Loses(c, d, op, a)
    ensures a in ListedTwice(c, d, op, a.owner, now) && Query(Rows(c, Act(c, d, op).0), a.owner) == []
  {
    var rows, after := Rows(c, d), Rows(c, Act(c, d, op).0);
    var cold: Cache<Json> := Cache(map[], map[], false);
    var cache := List(cold, rows, a.owner, now).0;
    QueryOk(rows, a.owner);
    NothingSelected(after, a.owner);
    ListStays(cold, rows, after, a.owner, now);
    NotDropped(c, d, op, a);
    if ListKey(a.owner) in Keys(Dropped(c, d, op)) {
      var o :| o in Dropped(c, d, op) && ListKey(o) == ListKey(a.owner);
      ListKeyInjective(o, a.owner);
    }
  }

  lemma {:induction false} NothingSelected(rows: seq<Row>, owner: string)
    requires forall r :: r in rows ==> r.owner != owner
    ensures Select(rows, owner) == []
  {
    if rows != [] {
      assert rows[0] in rows;
      NothingSelected(rows[1..], owner);
    }
  }

  lemma NotDropped(c: Codec, d: Dir, op: Op, a: Row)
    requires Loses(c, d, op, a)
    ensures a.owner !in Dropped(c, d, op)
  {
  }

  /** For a call and the slugs it aims at: a list taken before it is still the query's after it,
      sizes apart, whatever the directory and the layout of the table, exactly when "store" is not
      one of them. */
  lemma ListStaysRightIff(c: Codec, op: Op, somewhere: Dir, now: int)
    requires Faithful(c)
    ensures var aim := Aim(c, somewhere, op);
      (forall d, owner :: Aim(c, d, op) == aim && Unique(Rows(c, d)) ==>
         NoSize(ListedTwice(c, d, op, owner, now)) == NoSize(Query(Rows(c, Act(c, d, op).0), owner)))
      <==> STORE !in aim
  {
    var aim := Aim(c, somewhere, op);
    if STORE in aim {
      var d, a := ReachingLoses(c, op, somewhere);
      LostStaysListed(c, d, op, a, now);
      assert NoSize(ListedTwice(c, d, op, a.owner, now)) != [];
    } else {
      forall d, owner | Aim(c, d, op) == aim && Unique(Rows(c, d))
        ensures NoSize(ListedTwice(c, d, op, owner, now)) == NoSize(Query(Rows(c, Act(c, d, op).0), owner))
      {
        TwiceIsRight(c, d, op, owner, now);
      }
    }
  }

  lemma TwiceIsRight(c: Codec, d: Dir, op: Op, owner: string, now: int)
    requires Faithful(c) && Unique(Rows(c, d)) && !Reaches(c, d, op)
    ensures NoSize(ListedTwice(c, d, op, owner, now)) == NoSize(Query(Rows(c, Act(c, d, op).0), owner))
  {
    var s := System(d, Cache(map[], map[], false));
    ColdIsCurrent(c, d, false);
    var t := Next(c, s, ListFor(owner), now);
    ListKeepsCurrent(c, s, owner, now);
    CallKeepsCurrent(c, t, op, now);
    var u := Next(c, t, Call(op), now);
    assert TierCurrent(u.cache.l1, Rows(c, u.dir), owner) && TierCurrent(u.cache.l2, Rows(c, u.dir), owner);
  }

  lemma {:induction false} ResizeDropsNothing(c: Codec, d: Dir, cache: Cache<Json>, slug: string, size: int, now: int)
    requires Faithful(c) && Unique(Rows(c, d)) && Find(Rows(c, d), slug).Some?
    ensures var s := Next(c, System(d, cache), Call(Resize(slug, size)), now);
      s.cache == cache && Rows(c, s.dir) == Mapped(Rows(c, d), slug, SetSize(size))
  {
    UpdateOk(Rows(c, d), slug, SetSize(size));
    DroppedSeen(c, d, Resize(slug, size));
    NothingToDrop(cache);
  }

  /** Sizes are left out for a reason: whenever an owner has just listed, a new size of one of the
      listed databases does not show in the next list, though the query would return it. */
  lemma SizesGoStale(c: Codec, d: Dir, cache: Cache<Json>, owner: string, r: Row, size: int, now: int)
    requires Faithful(c) && Unique(Rows(c, d)) && r in Rows(c, d) && Listed(r, owner) && size != r.size
    requires !Live(cache.l1, ListKey(owner), now) && !Live(cache.l2, ListKey(owner), now)
    ensures var s := Next(c, System(d, List(cache, Rows(c, d), owner, now).0), Call(Resize(r.slug, size)), now);
      && r in List(s.cache, Rows(c, s.dir), owner, now).1
      && r !in Query(Rows(c, s.dir), owner)
  {
    var was := Rows(c, d);
    var rows := Mapped(was, r.slug, SetSize(size));
    ResizedAway(was, r, size);
    ResizeDropsNothing(c, d, List(cache, was, owner, now).0, r.slug, size, now);
    ListStays(cache, was, rows, owner, now);
    QueryOk(was, owner);
    QueryOk(rows, owner);
  }

  lemma NothingToDrop(c: Cache<Json>)
    ensures Drop(c, {}) == c
  {
    assert Keys({}) == {};
    assert c.l1 - {} == c.l1 && c.l2 - {} == c.l2;
  }

  lemma {:induction false} ResizedAway(rows: seq<Row>, r: Row, size: int)
    requires Unique(rows) && r in rows && size != r.size
    ensures Find(rows, r.slug) == Some(r)
    ensures r !in Mapped(rows, r.slug, SetSize(size))
  {
    FindIs(rows, r.slug, r);
    forall i | 0 <= i < |rows| ensures Mapped(rows, r.slug, SetSize(size))[i] != r {
      MappedAt(rows, r.slug, SetSize(size), i);
    }
  }
}
