/** Pool and Registry as objects over one data directory: the connection map and the files changed
    step by step, the registry's own file, which holds the table, among them. Each method's contract
    is the matching call of RegistryFile on the directory, and of ListCache on the cache. */
module RegistryObjects {
  import opened Prelude
  import opened DbFiles
  import opened Lifecycle
  import opened RegistryFile
  import opened ListCache
  import opened CacheTiers

  class DataDir {
    var disk: Disk

    constructor (disk: Disk)
      ensures this.disk == disk
    {
      this.disk := disk;
    }

    /** The stat-and-rename loop of SoftDeleteDatabase and RestoreDatabase. */
    method RenameFiles(from: string, to: string)
      modifies this
      ensures disk == MoveDb(old(disk), from, to)
    {
      var suffixes := [Main, Wal, Shm];
      ghost var d := disk;
      for i := 0 to 3
        invariant disk ==
          if i == 0 then d
          else if i == 1 then Move(d, DbFile(from, Main), DbFile(to, Main))
          else if i == 2 then Move(Move(d, DbFile(from, Main), DbFile(to, Main)), DbFile(from, Wal), DbFile(to, Wal))
          else MoveDb(d, from, to)
      {
        var source, target := DbFile(from, suffixes[i]), DbFile(to, suffixes[i]);
        if source in disk {
          disk := (disk - {source})[target := disk[source]];
        }
      }
    }

    /** The removal loop of HardDeleteDatabase and Pool.Remove; a missing file is no error. */
    method RemoveFiles(slug: string)
      modifies this
      ensures disk == RemoveDb(old(disk), slug)
    {
      var suffixes := [Main, Wal, Shm];
      ghost var d := disk;
      for i := 0 to 3
        invariant disk == d - set j | 0 <= j < i :: DbFile(slug, suffixes[j])
      {
        disk := disk - {DbFile(slug, suffixes[i])};
      }
      assert (set j | 0 <= j < 3 :: DbFile(slug, suffixes[j])) ==
        {DbFile(slug, Main), DbFile(slug, Wal), DbFile(slug, Shm)} by {
        assert suffixes[0] == Main && suffixes[1] == Wal && suffixes[2] == Shm;
      }
    }
  }

  class Conn {
    const name: string
    var isOpen: bool

    constructor (name: string)
      ensures this.name == name && isOpen
    {
      this.name, isOpen := name, true;
    }

    method Close()
      modifies this
      ensures !isOpen
    {
      isOpen := false;
    }
  }

  class Pool {
    const dir: DataDir
    var conns: map<string, Conn>

    ghost function Repr(): set<object>
      reads this
    {
      set n | n in conns :: conns[n]
    }

    /** Every connection in the map is open, under its own name, and under no other. */
    ghost predicate Valid()
      reads this, Repr()
    {
      forall n :: n in conns ==> conns[n].name == n && conns[n].isOpen
    }

    constructor (dir: DataDir)
      ensures Valid() && conns == map[] && this.dir == dir
    {
      this.dir, conns := dir, map[];
    }

    /** opens says whether sqlite could open the file. A name in the map is never opened again. */
    method Get(name: string, opens: bool) returns (r: Option<Conn>)
      requires Valid()
      modifies this`conns, dir
      ensures Valid()
      ensures name in old(conns) ==> r == Some(old(conns)[name]) && conns == old(conns) && dir.disk == old(dir.disk)
      ensures name !in old(conns) && !opens ==> r == None && conns == old(conns) && dir.disk == old(dir.disk)
      ensures name !in old(conns) && opens ==> r.Some? && fresh(r.value) && conns == old(conns)[name := r.value]
      ensures name !in old(conns) && opens ==>
        forall f: DbFile :: At(dir.disk, f) ==
          if f == DbFile(name, Main) && f !in old(dir.disk) then Some([]) else At(old(dir.disk), f)
      ensures r.Some? ==> forall rows ::
        Reg(rows, dir.disk, conns.Keys) == Do(Reg(rows, old(dir.disk), old(conns.Keys)), Open(name)).0
    {
      if name in conns {
        return Some(conns[name]);
      }
      if !opens {
        return None;
      }
      var file := DbFile(name, Main);
      if file !in dir.disk {
        dir.disk := dir.disk[file := []];
      }
      var conn := new Conn(name);
      conns := conns[name := conn];
      r := Some(conn);
    }

    /** Close the connection of a name and take it out of the map. */
    method Drop(name: string)
      requires Valid()
      modifies this`conns, Repr()
      ensures Valid() && conns == old(conns) - {name}
      ensures name in old(conns) ==> !old(conns)[name].isOpen
    {
      if name in conns {
        conns[name].Close();
      }
      conns := conns - {name};
    }

    method Remove(name: string)
      requires Valid()
      modifies this`conns, Repr(), dir
      ensures Valid() && (name in old(conns) ==> !old(conns)[name].isOpen)
      ensures conns == old(conns) - {name} && dir.disk == RemoveDb(old(dir.disk), name)
      ensures forall f: DbFile :: At(dir.disk, f) == if f.slug == name then None else At(old(dir.disk), f)
    {
      ghost var d := dir.disk;
      Drop(name);
      dir.RemoveFiles(name);
      forall f: DbFile ensures At(RemoveDb(d, name), f) == if f.slug == name then None else At(d, f) {
        match f.suffix case Main => case Wal => case Shm =>
      }
    }

    method Close()
      requires Valid()
      modifies this`conns, Repr()
      ensures Valid() && conns == map[]
      ensures forall n :: n in old(conns) ==> !old(conns)[n].isOpen
    {
      ghost var all := conns;
      while conns != map[]
        invariant conns.Keys <= all.Keys
        invariant forall n :: n in all ==> all[n].name == n && (n in conns ==> conns[n] == all[n])
        invariant forall n :: n in all ==> (all[n].isOpen <==> n in conns)
        decreases |conns|
      {
        var name :| name in conns;
        conns[name].Close();
        conns := conns - {name};
      }
    }
  }

  class Registry {
    const dir: DataDir
    const pool: Pool
    const cache: TieredClient<Json>
    const layout: Codec

    ghost predicate Valid()
      reads this, pool, pool.Repr(), cache.l1, cache.l2
    {
      pool.dir == dir && pool.Valid() && cache.Valid() && Faithful(layout)
    }

    ghost function View(): Dir
      reads this, dir, pool
    {
      Dir(dir.disk, pool.conns.Keys)
    }

    constructor (pool: Pool, cache: TieredClient<Json>, layout: Codec)
      requires pool.Valid() && cache.Valid() && Faithful(layout)
      ensures Valid() && this.pool == pool && this.dir == pool.dir && this.cache == cache && this.layout == layout
    {
      dir, this.pool, this.cache, this.layout := pool.dir, pool, cache, layout;
    }

    /** A query's view of the table: whatever lies in the file. */
    method ReadTable() returns (rows: seq<Row>)
      ensures rows == Rows(layout, View())
    {
      rows := if HOME in dir.disk then layout.rows(dir.disk[HOME]) else [];
    }

    /** A statement's commit: nothing is written if no row changed. */
    method WriteTable(rows: seq<Row>)
      modifies dir
      ensures View() == Save(layout, old(View()), rows)
    {
      var was := ReadTable();
      if rows != was {
        dir.disk := dir.disk[HOME := layout.save(At(dir.disk, HOME), rows)];
      }
    }

    method InvalidateDBList(owner: string)
      requires cache.Valid()
      modifies cache.l1, cache.l2
      ensures cache.Valid() && cache.View() == ListCache.Drop(old(cache.View()), {owner})
    {
      assert Keys({owner}) == {ListKey(owner)};
      cache.DeleteKey(ListKey(owner));
    }

    method InsertDatabase(id: string, name: string, slug: string, owner: string, source: string,
        instanceId: Option<string>, description: Option<string>, createdAt: string) returns (r: Option<Row>)
      requires Valid()
      modifies dir, cache.l1, cache.l2
      ensures Valid()
      ensures var op := Insert(NewRow(id, name, slug, owner, source, instanceId, description, createdAt));
        && (View(), r.Some?) == Act(layout, old(View()), op)
        && cache.View() == ListCache.Drop(old(cache.View()), Dropped(layout, old(View()), op))
      ensures r.Some? ==>
        r.value == Row(id, name, slug, description, owner, source, instanceId, "active", 0, None, createdAt, None, None)
      ensures r.None? ==> View() == old(View()) && cache.View() == old(cache.View())
    {
      var row := NewRow(id, name, slug, owner, source, instanceId, description, createdAt);
      var rows := ReadTable();
      if !Unique(rows + [row]) {
        NothingToDrop(cache.View());
        return None;
      }
      AppendedIsFound(rows, row);
      WriteTable(rows + [row]);
      InvalidateDBList(owner);
      rows := ReadTable();
      r := Find(rows, slug);
    }

    /** UPDATE databases SET … WHERE slug = ?. */
    method UpdateRow(slug: string, c: Change) returns (ok: bool)
      modifies dir
      ensures (View(), ok) == ChangeStored(layout, old(View()), slug, c)
    {
      var rows := ReadTable();
      var updated := Mapped(rows, slug, c);
      ok := Unique(updated);
      if ok {
        WriteTable(updated);
      }
    }

    /** The row is looked up, updated, and on success its owner's cached list is dropped. */
    method UpdateListedRow(slug: string, c: Change) returns (ok: bool)
      requires cache.Valid()
      modifies dir, cache.l1, cache.l2
      ensures cache.Valid() && (View(), ok) == ChangeStored(layout, old(View()), slug, c)
      ensures cache.View() ==
        ListCache.Drop(old(cache.View()), if ok then OwnersOf(Rows(layout, old(View())), slug) else {})
    {
      var rows := ReadTable();
      var rec := Find(rows, slug);
      ok := UpdateRow(slug, c);
      NothingToDrop(cache.View());
      if ok && rec.Some? {
        InvalidateDBList(rec.value.owner);
      }
    }

    method SetDatabaseStatus(slug: string, status: string) returns (ok: bool)
      requires Valid()
      modifies dir, cache.l1, cache.l2
      ensures Valid() && (View(), ok) == Act(layout, old(View()), Status(slug, status))
      ensures cache.View() == ListCache.Drop(old(cache.View()), Dropped(layout, old(View()), Status(slug, status)))
    {
      ok := UpdateListedRow(slug, Change.SetStatus(status));
    }

    method UpdateDatabaseSize(slug: string, size: int) returns (ok: bool)
      requires Valid()
      modifies dir
      ensures Valid() && (View(), ok) == Act(layout, old(View()), Resize(slug, size))
    {
      ok := UpdateRow(slug, SetSize(size));
    }

    method SoftDeleteDatabase(slug: string, epoch: nat, at: string) returns (ok: bool)
      requires Valid()
      modifies dir, pool`conns, pool.Repr(), cache.l1, cache.l2
      ensures Valid() && (View(), ok) == Act(layout, old(View()), SoftDelete(slug, epoch, at))
      ensures cache.View() == ListCache.Drop(old(cache.View()), Dropped(layout, old(View()), SoftDelete(slug, epoch, at)))
      ensures slug in old(pool.conns) ==> !old(pool.conns)[slug].isOpen
    {
      var newSlug := Archived(slug, epoch);
      dir.RenameFiles(slug, newSlug);
      pool.Drop(slug);
      assert pool.conns.Keys == old(pool.conns).Keys - {slug};
      assert View() == ReadIn(old(View()), SoftDelete(slug, epoch, at));
      ok := UpdateListedRow(slug, MarkDeleted(newSlug, at));
    }

    /** Success without a row is what the code returns when the row is no longer there to update. */
    method RestoreDatabase(slug: string) returns (ok: bool, r: Option<Row>)
      requires Valid()
      modifies dir, cache.l1, cache.l2
      ensures Valid() && (View(), ok) == Act(layout, old(View()), Restore(slug))
      ensures cache.View() == ListCache.Drop(old(cache.View()), Dropped(layout, old(View()), Restore(slug)))
      ensures ok ==> r == Find(Rows(layout, View()), Restorable(Rows(layout, old(View())), slug).value)
      ensures !ok ==> r == None
    {
      var rows := ReadTable();
      var rec := Find(rows, slug);
      NothingToDrop(cache.View());
      if rec.None? || rec.value.status != "deleted" || rec.value.originalSlug.None? {
        return false, None;
      }
      var to := rec.value.originalSlug.value;
      dir.RenameFiles(slug, to);
      ok := UpdateRow(slug, MarkRestored(to));
      if !ok {
        return false, None;
      }
      InvalidateDBList(rec.value.owner);
      rows := ReadTable();
      r := Find(rows, to);
    }

    method HardDeleteDatabase(slug: string) returns (ok: bool)
      requires Valid()
      modifies dir, cache.l1, cache.l2
      ensures Valid() && (View(), ok) == Act(layout, old(View()), HardDelete(slug))
      ensures cache.View() == ListCache.Drop(old(cache.View()), Dropped(layout, old(View()), HardDelete(slug)))
    {
      var rows := ReadTable();
      var rec := Find(rows, slug);
      NothingToDrop(cache.View());
      if rec.None? || rec.value.status != "deleted" {
        return false;
      }
      dir.RemoveFiles(slug);
      rows := ReadTable();
      WriteTable(Without(rows, slug));
      InvalidateDBList(rec.value.owner);
      ok := true;
    }

    method GetJSON(k: string, now: int) returns (r: Option<seq<Row>>)
      requires cache.Valid()
      modifies cache.l1
      ensures cache.Valid() && (cache.View(), r) == ListCache.GetJSON(old(cache.View()), k, now)
    {
      var hit := cache.l1.Find(k, now);
      if hit.Some? {
        return Some(Unmarshal(hit.value));
      }
      hit := cache.l2.Find(k, now);
      if hit.None? || hit.value.Array? {
        return None;
      }
      cache.l1.Put(k, Null, L1_TTL, now);
      r := Some([]);
    }

    method ListDatabasesByOwner(owner: string, now: int) returns (r: seq<Row>)
      requires Valid()
      modifies cache.l1, cache.l2
      ensures Valid() && (cache.View(), r) == List(old(cache.View()), Rows(layout, View()), owner, now)
    {
      var cached := GetJSON(ListKey(owner), now);
      if cached.Some? {
        return cached.value;
      }
      var rows := ReadTable();
      r := Query(rows, owner);
      cache.SetKey(ListKey(owner), Marshal(r), LIST_TTL, now);
    }
  }

  function NewRow(id: string, name: string, slug: string, owner: string, source: string,
    instanceId: Option<string>, description: Option<string>, createdAt: string): (r: Row)
    ensures Fresh(r)
  {
    Row(id, name, slug, description, owner, source, instanceId, "active", 0, None, createdAt, None, None)
  }

  /** A row that was accepted is the one found under its slug. */
  lemma {:induction false} AppendedIsFound(rows: seq<Row>, row: Row)
    requires Unique(rows + [row])
    ensures Find(rows + [row], row.slug) == Some(row)
  {
    if rows == [] {
      assert [] + [row] == [row];
    } else {
      assert (rows + [row])[1..] == rows[1..] + [row];
      AppendedIsFound(rows[1..], row);
    }
  }
}
