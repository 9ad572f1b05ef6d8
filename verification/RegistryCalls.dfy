/** What the single calls of the registry leave in its table and in the data directory, column by
    column and file by file. */
module RegistryCalls {
  import opened Prelude
  import opened DbFiles
  import opened Lifecycle
  import opened RegistryFile
  import opened CacheTiers
  import opened ListCache
  import Decimal

  /** Under every slug but these the same row is found in both directories. */
  ghost predicate SameRows(c: Codec, a: Dir, b: Dir, but: set<string>)
  {
    forall slug :: slug !in but ==> Find(Rows(c, a), slug) == Find(Rows(c, b), slug)
  }

  /** Every file but the registry's own, and but those of this slug, is the same in both. */
  ghost predicate SameFiles(a: Dir, b: Dir, but: set<string>)
  {
    forall f: DbFile :: f.slug !in but && f != DbFile("store", Main) ==> At(a.disk, f) == At(b.disk, f)
  }

  lemma SavedIs(c: Codec, d: Dir, rows: seq<Row>)
    requires Faithful(c)
    ensures Rows(c, Save(c, d, rows)) == rows && SameFiles(Save(c, d, rows), d, {})
    ensures Save(c, d, rows).conns == d.conns
  {
  }

  /** An UPDATE of one row that keeps its slug. */
  lemma {:induction false} RowChanged(c: Codec, d: Dir, slug: string, change: Change)
    requires Faithful(c) && Unique(Rows(c, d)) && (change.SetStatus? || change.SetSize?)
    ensures var (t, ok) := ChangeStored(c, d, slug, change);
      && ok && SameRows(c, t, d, {slug}) && SameFiles(t, d, {}) && t.conns == d.conns
      && Find(Rows(c, t), slug) ==
         match Find(Rows(c, d), slug) case None => None case Some(r) => Some(Changed(r, change))
  {
    var rows := Rows(c, d);
    if Find(rows, slug).None? {
      MappedAbsent(rows, slug, change);
    } else {
      UpdateOk(rows, slug, change);
    }
    SavedIs(c, d, Update(rows, slug, change).value);
    forall other ensures Find(Update(rows, slug, change).value, other) ==
      if other != slug || Find(rows, slug).None? then Find(rows, other) else Some(Changed(Find(rows, slug).value, change))
    {
      FindUpdated(rows, slug, change, other);
    }
  }

  /** SetDatabaseStatus writes the status given, in the row of that slug, and nothing else. */
  lemma {:induction false} StatusOutcome(c: Codec, d: Dir, slug: string, status: string)
    requires Faithful(c) && Unique(Rows(c, d))
    ensures var (t, ok) := Act(c, d, Status(slug, status));
      && ok && SameRows(c, t, d, {slug}) && SameFiles(t, d, {}) && t.conns == d.conns
      && Find(Rows(c, t), slug) ==
         match Find(Rows(c, d), slug) case None => None case Some(r) => Some(r.(status := status))
  {
    RowChanged(c, d, slug, Change.SetStatus(status));
  }

  /** UpdateDatabaseSize likewise. */
  lemma {:induction false} SizeOutcome(c: Codec, d: Dir, slug: string, size: int)
    requires Faithful(c) && Unique(Rows(c, d))
    ensures var (t, ok) := Act(c, d, Resize(slug, size));
      && ok && SameRows(c, t, d, {slug}) && SameFiles(t, d, {}) && t.conns == d.conns
      && Find(Rows(c, t), slug) ==
         match Find(Rows(c, d), slug) case None => None case Some(r) => Some(r.(size := size))
  {
    RowChanged(c, d, slug, SetSize(size));
  }

  /** InsertDatabase adds the row, or, if its id or slug is taken, does nothing. */
  lemma {:induction false} InsertOutcome(c: Codec, d: Dir, row: Row)
    requires Faithful(c) && Unique(Rows(c, d))
    ensures var (t, ok) := Act(c, d, Insert(row));
      && (ok <==> Find(Rows(c, d), row.slug).None? && FindId(Rows(c, d), row.id).None?)
      && (!ok ==> t == d)
      && (ok ==> Rows(c, t) == Rows(c, d) + [row] && SameFiles(t, d, {}) && t.conns == d.conns)
      && (ok ==> Find(Rows(c, t), row.slug) == Some(row) && SameRows(c, t, d, {row.slug}))
  {
    var rows := Rows(c, d);
    InsertOk(rows, row);
    SavedIs(c, d, rows + [row]);
    forall other ensures Find(rows + [row], other) ==
      if Find(rows, other).Some? then Find(rows, other) else if row.slug == other then Some(row) else None
    {
      FindAppended(rows, row, other);
    }
  }

  /** The archive name is the slug, a hyphen and the second of the deletion in decimal; the row keeps
      its slug for restoring, and says that it is deleted and when. */
  lemma {:induction false} SoftDeletedRow(c: Codec, d: Dir, slug: string, epoch: nat, at: string)
    requires Faithful(c) && Unique(Rows(c, d)) && Find(Rows(c, d), slug).Some? && slug != "store"
    ensures var (t, ok) := Act(c, d, SoftDelete(slug, epoch, at));
      var newSlug := slug + "-" + Decimal.Render(epoch);
      && (ok <==> Find(Rows(c, d), newSlug).None?)
      && (ok ==> Find(Rows(c, t), slug) == None && SameRows(c, t, d, {slug, newSlug}))
      && (ok ==> Find(Rows(c, t), newSlug) == Some(Find(Rows(c, d), slug).value.(
                   slug := newSlug, originalSlug := Some(slug), status := "deleted", deletedAt := Some(at))))
      && (!ok ==> Rows(c, t) == Rows(c, d))
      && t.conns == d.conns - {slug} && SameFiles(t, d, {slug, newSlug})
  {
    var newSlug, change := Archived(slug, epoch), MarkDeleted(Archived(slug, epoch), at);
    var rows, moved := Rows(c, d), Dir(MoveDb(d.disk, slug, newSlug), d.conns - {slug});
    ArchiveIsNoStore(slug, epoch);
    MoveSeen(c, d, slug, newSlug, d.conns - {slug});
    RowMoves(rows, slug, change, newSlug);
    MovedFiles(d, moved, slug, newSlug);
    MovedRow(c, d, moved, slug, newSlug, change);
  }

  lemma MovedFiles(d: Dir, moved: Dir, from: string, to: string)
    requires from != to && moved.disk == MoveDb(d.disk, from, to)
    ensures SameFiles(moved, d, {from, to})
  {
    forall f: DbFile | f.slug !in {from, to} ensures At(moved.disk, f) == At(d.disk, f) {
      MoveDbAt(d.disk, from, to, f);
    }
  }

  /** The rows after an update that moves one to another slug, the files having been moved. */
  lemma {:induction false} MovedRow(c: Codec, d: Dir, moved: Dir, slug: string, to: string, change: Change)
    requires Faithful(c) && Unique(Rows(c, d)) && Rows(c, moved) == Rows(c, d) && Find(Rows(c, d), slug).Some?
    requires slug != to && Changed(Find(Rows(c, d), slug).value, change).slug == to && SameFiles(moved, d, {slug, to})
    ensures var (t, ok) := ChangeStored(c, moved, slug, change);
      && t.conns == moved.conns && SameFiles(t, d, {slug, to})
      && (ok <==> Find(Rows(c, d), to).None?)
      && (!ok ==> Rows(c, t) == Rows(c, d))
      && (ok ==> Find(Rows(c, t), slug) == None && SameRows(c, t, d, {slug, to}))
      && (ok ==> Find(Rows(c, t), to) == Some(Changed(Find(Rows(c, d), slug).value, change)))
  {
    var rows := Rows(c, d);
    RowMoves(rows, slug, change, to);
    var updated := Update(rows, slug, change);
    if updated.Some? {
      SavedIs(c, moved, updated.value);
      forall other | other !in {slug, to} ensures Find(updated.value, other) == Find(rows, other) {
        FindUpdated(rows, slug, change, other);
      }
    }
  }

  /** A restore is refused unless the row is deleted and knows its slug. */
  lemma {:induction false} RestoreRefused(c: Codec, d: Dir, slug: string)
    requires var rec := Find(Rows(c, d), slug);
      rec.None? || rec.value.status != "deleted" || rec.value.originalSlug.None?
    ensures Act(c, d, Restore(slug)) == (d, false)
  {
  }

  /** Otherwise the row goes back to that slug, active and without its marks, if no row has it. */
  lemma {:induction false} RestoredRow(c: Codec, d: Dir, slug: string, to: string)
    requires Faithful(c) && Unique(Rows(c, d)) && Find(Rows(c, d), slug).Some? && slug != to && "store" !in {slug, to}
    requires var r := Find(Rows(c, d), slug).value; r.status == "deleted" && r.originalSlug == Some(to)
    ensures var (t, ok) := Act(c, d, Restore(slug));
      && (ok <==> Find(Rows(c, d), to).None?)
      && (ok ==> Find(Rows(c, t), slug) == None && SameRows(c, t, d, {slug, to}))
      && (ok ==> Find(Rows(c, t), to) == Some(Find(Rows(c, d), slug).value.(
                   slug := to, originalSlug := None, status := "active", deletedAt := None)))
      && (!ok ==> Rows(c, t) == Rows(c, d))
      && t.conns == d.conns && SameFiles(t, d, {slug, to})
  {
    var moved := d.(disk := MoveDb(d.disk, slug, to));
    MoveSeen(c, d, slug, to, d.conns);
    MovedFiles(d, moved, slug, to);
    MovedRow(c, d, moved, slug, to, MarkRestored(to));
  }

  /** A hard deletion goes through exactly for a row that is deleted; then the row and its three
      files are gone and nothing else is. */
  lemma {:induction false} HardDeleteOutcome(c: Codec, d: Dir, slug: string)
    requires Faithful(c) && slug != "store"
    ensures var (t, ok) := Act(c, d, HardDelete(slug));
      && (ok <==> Find(Rows(c, d), slug).Some? && Find(Rows(c, d), slug).value.status == "deleted")
      && (!ok ==> t == d)
      && (ok ==> Find(Rows(c, t), slug) == None && SameRows(c, t, d, {slug}) && t.conns == d.conns)
      && (ok ==> SameFiles(t, d, {slug}) && forall suffix :: DbFile(slug, suffix) !in t.disk)
  {
    var rows := Rows(c, d);
    if Removable(rows, slug) {
      var emptied := d.(disk := RemoveDb(d.disk, slug));
      RemoveHidden(d.disk, slug);
      assert Rows(c, emptied) == rows by { assert At(emptied.disk, HOME) == At(d.disk, HOME); }
      SavedIs(c, emptied, Without(rows, slug));
      forall other ensures Find(Without(rows, slug), other) == if other == slug then None else Find(rows, other) {
        FindWithout(rows, slug, other);
      }
      forall suffix ensures DbFile(slug, suffix) !in Save(c, emptied, Without(rows, slug)).disk {
        assert DbFile(slug, suffix) != HOME && DbFile(slug, suffix) !in emptied.disk by {
          match suffix case Main => case Wal => case Shm =>
        }
      }
    }
  }

  /** A reset leaves no file of the slug and no connection to it. */
  lemma ResetOutcome(c: Codec, d: Dir, slug: string)
    ensures var (t, ok) := Act(c, d, Reset(slug));
      && ok && t.conns == d.conns - {slug} && (forall suffix :: DbFile(slug, suffix) !in t.disk)
      && forall f: DbFile :: f.slug != slug ==> At(t.disk, f) == At(d.disk, f)
  {
    forall suffix ensures DbFile(slug, suffix) !in RemoveDb(d.disk, slug) {
      match suffix case Main => case Wal => case Shm =>
    }
  }

  /** A write reaches the one file it names, and opening makes the main file if there is none and no
      connection either. */
  lemma WriteOutcome(c: Codec, d: Dir, slug: string, suffix: Suffix, data: Bytes)
    ensures var (t, ok) := Act(c, d, Write(slug, suffix, data));
      && ok && t.conns == d.conns
      && forall f: DbFile :: At(t.disk, f) == if f == DbFile(slug, suffix) then Some(data) else At(d.disk, f)
  {
  }

  lemma OpenOutcome(c: Codec, d: Dir, slug: string)
    ensures var (t, ok) := Act(c, d, Open(slug));
      && ok && t.conns == d.conns + {slug}
      && forall f: DbFile :: At(t.disk, f) ==
           if f == DbFile(slug, Main) && slug !in d.conns && f !in d.disk then Some([]) else At(d.disk, f)
  {
  }

  // ---- The cached list ------------------------------------------------------------------

  /** A call drops a cached list exactly when it succeeds in adding a row, in giving one another
      status, or in deleting, restoring or purging one, and then its owner's. */
  lemma DropsTheOwners(c: Codec, d: Dir, op: Op, owner: string)
    requires Faithful(c) && Unique(Rows(c, d)) && !Reaches(c, d, op)
    ensures owner in Dropped(c, d, op) <==>
      && Act(c, d, op).1
      && match op
         case Insert(row) => row.owner == owner
         case Resize(_, _) => false
         case Open(_) => false
         case Write(_, _, _) => false
         case Reset(_) => false
         case _ => Find(Rows(c, d), op.slug).Some? && Find(Rows(c, d), op.slug).value.owner == owner
  {
    if op.SoftDelete? {
      ArchiveIsNoStore(op.slug, op.epoch);
      MoveSeen(c, d, op.slug, Archived(op.slug, op.epoch), d.conns - {op.slug});
    }
  }

  /** A list that only L2 still holds is never read: an array is a miss, and the query is asked and
      cached again. */
  lemma ArrayInL2IsMissed(cache: Cache<Json>, rows: seq<Row>, owner: string, now: int, stored: seq<Row>, until: int)
    requires ListKey(owner) !in cache.l1 || cache.l1[ListKey(owner)].expiresAt < now
    requires ListKey(owner) in cache.l2 && cache.l2[ListKey(owner)] == Entry(Array(stored), until)
    ensures List(cache, rows, owner, now).1 == Query(rows, owner)
    ensures ListKey(owner) in List(cache, rows, owner, now).0.l1
    ensures List(cache, rows, owner, now).0.l1[ListKey(owner)].expiresAt == now + 300_000
  {
  }

  /** An empty list in L2 is read, and comes back into L1. */
  lemma NullInL2IsRead(cache: Cache<Json>, rows: seq<Row>, owner: string, now: int, until: int)
    requires ListKey(owner) !in cache.l1 || cache.l1[ListKey(owner)].expiresAt < now
    requires ListKey(owner) in cache.l2 && cache.l2[ListKey(owner)] == Entry(Json.Null, until) && now <= until
    ensures List(cache, rows, owner, now) == (cache.(l1 := cache.l1[ListKey(owner) := Entry(Json.Null, now + 300_000)]), [])
  {
  }

  /** While L1 holds a list it is the answer, and nothing changes. */
  lemma L1Answers(cache: Cache<Json>, rows: seq<Row>, owner: string, now: int)
    requires ListKey(owner) in cache.l1 && now <= cache.l1[ListKey(owner)].expiresAt
    ensures List(cache, rows, owner, now) ==
      (cache, match cache.l1[ListKey(owner)].value case Null => [] case Array(stored) => stored)
  {
  }

  /** After a drop the next list is the query's own answer, sizes included, and is cached in both
      tiers; every other owner's list stays cached as it was. */
  lemma DroppedListIsQueried(cache: Cache<Json>, owners: set<string>, rows: seq<Row>, owner: string, now: int)
    requires owner in owners
    ensures List(ListCache.Drop(cache, owners), rows, owner, now).1 == Query(rows, owner)
    ensures var c := List(ListCache.Drop(cache, owners), rows, owner, now).0;
      && ListKey(owner) in c.l1 && Unmarshal(c.l1[ListKey(owner)].value) == Query(rows, owner)
      && c.l1[ListKey(owner)].expiresAt == now + 300_000
      && (cache.hasL2 ==> ListKey(owner) in c.l2 && c.l2[ListKey(owner)] == Entry(c.l1[ListKey(owner)].value, now + 300_000))
    ensures forall o :: o !in owners ==>
      var c := ListCache.Drop(cache, owners);
      && (ListKey(o) in c.l1 <==> ListKey(o) in cache.l1) && (ListKey(o) in c.l2 <==> ListKey(o) in cache.l2)
      && (ListKey(o) in c.l1 ==> c.l1[ListKey(o)] == cache.l1[ListKey(o)])
      && (ListKey(o) in c.l2 ==> c.l2[ListKey(o)] == cache.l2[ListKey(o)])
  {
    forall o | o !in owners ensures ListKey(o) !in Keys(owners) {
      if other :| other in owners && ListKey(other) == ListKey(o) {
        ListKeyInjective(other, o);
      }
    }
  }
}
