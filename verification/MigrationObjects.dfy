/** The migration as the code runs it: files renamed one by one, rows updated one by one inside a
    transaction. Each method's contract is the matching part of Migration on its state. */
module MigrationObjects {
  import opened Prelude
  import opened DbFiles
  import opened Migration

  /** The rows a column rewrite changes. */
  ghost function Changed<K>(col: map<K, Option<string>>, f: string -> string, ids: set<K>): set<K>
  {
    set id | id in ids && id in col && MapOption(col[id], f) != col[id]
  }

  function Lift(col: map<string, string>): map<string, Option<string>>
  {
    map id | id in col :: Some(col[id])
  }

  /** The rows phase 2 updates, over its four columns. */
  ghost function ChangedRows(t: Tables): nat
  {
    |Changed(Lift(t.names), Strip, t.names.Keys)| + |Changed(t.originals, Strip, t.originals.Keys)| +
    |Changed(Lift(t.revocations), StripEvent, t.revocations.Keys)| +
    |Changed(t.audits, StripEvent, t.audits.Keys)|
  }

  function Lower(col: map<string, Option<string>>): map<string, string>
    requires forall id :: id in col ==> col[id].Some?
  {
    map id | id in col :: col[id].value
  }

  /** The loop of updateColumnPrefix and its two variants: NULLs and unchanged values are skipped,
      every other value is rewritten in its own UPDATE. */
  method UpdateColumn<K>(col: map<K, Option<string>>, f: string -> string)
    returns (result: map<K, Option<string>>, updated: nat)
    ensures result == StripNullable(col, f)
    ensures result.Keys == col.Keys
    ensures forall id :: id in col ==> result[id] == match col[id] case None => None case Some(s) => Some(f(s))
    ensures updated == |set id | id in col && col[id].Some? && f(col[id].value) != col[id].value|
    ensures updated == |Changed(col, f, col.Keys)|
  {
    result, updated := col, 0;
    var left := col.Keys;
    while left != {}
      invariant left <= col.Keys == result.Keys
      invariant forall id :: id in col ==> result[id] == if id in left then col[id] else MapOption(col[id], f)
      invariant updated == |Changed(col, f, col.Keys - left)|
      decreases |left|
    {
      var id :| id in left;
      var rest := left - {id};
      if col[id].Some? && f(col[id].value) != col[id].value {
        result := result[id := Some(f(col[id].value))];
        updated := updated + 1;
        assert Changed(col, f, col.Keys - rest) == Changed(col, f, col.Keys - left) + {id};
      } else {
        assert Changed(col, f, col.Keys - rest) == Changed(col, f, col.Keys - left);
      }
      left := rest;
    }
    assert col.Keys - {} == col.Keys;
    ChangedMeans(col, f);
  }

  lemma ChangedMeans<K>(col: map<K, Option<string>>, f: string -> string)
    ensures Changed(col, f, col.Keys) == set id | id in col && col[id].Some? && f(col[id].value) != col[id].value
  {
  }

  /** A NOT NULL column goes through the same loop. */
  lemma LiftedColumn(col: map<string, string>, f: string -> string)
    ensures Lift(col).Keys == col.Keys
    ensures forall id :: id in StripNullable(Lift(col), f) ==> StripNullable(Lift(col), f)[id].Some?
    ensures Lower(StripNullable(Lift(col), f)) == StripColumn(col, f)
  {
  }

  ghost function Elements(ids: seq<string>): set<string>
  {
    set id | id in ids
  }

  /** The loop over databases.name, where an UPDATE to a name that is taken fails. */
  method UpdateNames(names: map<string, string>, ids: seq<string>, unique: bool)
    returns (result: Option<map<string, string>>, updated: nat)
    requires Lists(ids, names.Keys)
    ensures result == StripRows(names, ids, unique)
    ensures result.Some? ==> updated == |Changed(Lift(names), Strip, names.Keys)|
  {
    var now := names;
    updated := 0;
    assert ids[..0] == [];
    for i := 0 to |ids|
      invariant StripRows(names, ids[..i], unique) == Some(now)
      invariant updated == Renamings(names, ids[..i])
    {
      assert ids[..i + 1][..i] == ids[..i];
      NotYetDone(names, ids, i, unique);
      var next := UpdateName(now, ids[i], unique);
      if next.None? {
        StaysNone(names, ids, i + 1, unique);
        return None, updated;
      }
      if Strip(now[ids[i]]) != now[ids[i]] {
        updated := updated + 1;
      }
      now := next.value;
    }
    assert ids[..|ids|] == ids;
    RenamingsAreChanged(names, ids);
    assert Elements(ids) == names.Keys;
    result := Some(now);
  }

  /** One UPDATE, left out when the value stays the same. */
  method UpdateName(now: map<string, string>, id: string, unique: bool) returns (next: Option<map<string, string>>)
    requires id in now
    ensures next == StripRow(now, id, unique)
  {
    var (value, stripped) := StripPrefix(now[id], "D-");
    if !stripped {
      return Some(now);
    }
    assert |value| < |now[id]|;
    if unique && exists other :: other in now && other != id && now[other] == value {
      return None;
    }
    next := Some(now[id := value]);
  }

  /** A row that the loop has not come to is as it was. */
  lemma {:induction false} NotYetDone(names: map<string, string>, ids: seq<string>, i: nat, unique: bool)
    requires Lists(ids, names.Keys) && i < |ids|
    ensures var r := StripRows(names, ids[..i], unique);
      r.Some? ==> ids[i] in r.value && r.value[ids[i]] == names[ids[i]]
  {
    StripRowsIs(names, ids[..i], unique);
    assert ids[i] in ids && ids[i] !in ids[..i];
  }

  /** How many of the rows change. */
  ghost function Renamings(names: map<string, string>, ids: seq<string>): nat
  {
    if ids == [] then 0
    else
      var id := ids[|ids| - 1];
      Renamings(names, ids[..|ids| - 1]) + if id in names && Strip(names[id]) != names[id] then 1 else 0
  }

  lemma OneMoreChanged(names: map<string, string>, done: set<string>, id: string)
    requires id !in done
    ensures var was, now := Changed(Lift(names), Strip, done), Changed(Lift(names), Strip, done + {id});
      |now| == |was| + if id in names && Strip(names[id]) != names[id] then 1 else 0
  {
    var was, now := Changed(Lift(names), Strip, done), Changed(Lift(names), Strip, done + {id});
    if id in names && Strip(names[id]) != names[id] {
      assert now == was + {id};
    } else {
      assert now == was;
    }
  }

  lemma OneMoreElement(ids: seq<string>, id: string)
    ensures Elements(ids + [id]) == Elements(ids) + {id}
  {
  }

  lemma {:induction false} RenamingsAreChanged(names: map<string, string>, ids: seq<string>)
    requires forall i, j :: 0 <= i < j < |ids| ==> ids[i] != ids[j]
    ensures Renamings(names, ids) == |Changed(Lift(names), Strip, Elements(ids))|
  {
    if ids == [] {
      assert Changed(Lift(names), Strip, Elements(ids)) == {};
    } else {
      var init, id := ids[..|ids| - 1], ids[|ids| - 1];
      RenamingsAreChanged(names, init);
      OneMoreElement(init, id);
      assert ids == init + [id] && id !in init;
      OneMoreChanged(names, Elements(init), id);
    }
  }

  /** The four columns in their order; None if the first one fails. */
  method RewriteTables(m: Legacy, t: Tables) returns (r: Option<Tables>, updated: nat)
    requires Lawful(m)
    ensures r == if StripRows(t.names, m.rowOrder(t.names), m.unique).None? then None else Some(Rewritten(t))
    ensures r.Some? ==> updated == ChangedRows(t)
  {
    assert Lists(m.rowOrder(t.names), t.names.Keys);
    AllStripped(m, t.names);
    LiftedColumn(t.revocations, StripEvent);
    var names, n := UpdateNames(t.names, m.rowOrder(t.names), m.unique);
    if names.None? {
      return None, n;
    }
    var originals, o := UpdateColumn(t.originals, Strip);
    var revocations, v := UpdateColumn(Lift(t.revocations), StripEvent);
    var audits, a := UpdateColumn(t.audits, StripEvent);
    r := Some(Tables(names.value, originals, Lower(revocations), audits));
    updated := n + o + v + a;
  }

  /** How many of the renames ms find a file to move. */
  ghost function Moves(m: Legacy, p: Proc, ms: seq<Micro>): nat
  {
    if ms == [] then 0
    else
      var init, s := ms[..|ms| - 1], ms[|ms| - 1];
      Moves(m, p, init) +
      if s.Rename? && Prefixed(s.name) && DbFile(s.name, s.suffix) in DoAll(m, p, init).disk then 1 else 0
  }

  /** Running one batch and then another. */
  lemma {:induction false} DoAllAppend(m: Legacy, p: Proc, ms: seq<Micro>, more: seq<Micro>)
    ensures DoAll(m, p, ms + more) == DoAll(m, DoAll(m, p, ms), more)
  {
    if more == [] {
      assert ms + more == ms;
    } else {
      var all, init := ms + more, more[..|more| - 1];
      assert all[..|all| - 1] == ms + init && all[|all| - 1] == more[|more| - 1];
      DoAllAppend(m, p, ms, init);
    }
  }

  lemma {:induction false} MovesAppend(m: Legacy, p: Proc, ms: seq<Micro>, more: seq<Micro>)
    ensures Moves(m, p, ms + more) == Moves(m, p, ms) + Moves(m, DoAll(m, p, ms), more)
  {
    if more == [] {
      assert ms + more == ms;
    } else {
      var all, init := ms + more, more[..|more| - 1];
      assert all[..|all| - 1] == ms + init && all[|all| - 1] == more[|more| - 1];
      MovesAppend(m, p, ms, init);
      DoAllAppend(m, p, ms, init);
    }
  }

  lemma {:induction false} RenamesAppend(order: seq<string>, name: string)
    ensures Renames(order + [name]) == Renames(order) + Renames([name])
  {
    if order == [] {
      assert [] + [name] == [name];
    } else {
      RenamesAppend(order[1..], name);
      assert (order + [name])[1..] == order[1..] + [name];
    }
  }

  lemma RenamesOfOne(name: string)
    ensures Renames([name]) == [Rename(name, Main), Rename(name, Wal), Rename(name, Shm)]
  {
    var order := [name];
    assert order[1..] == [] && Renames(order[1..]) == [];
    assert Renames(order) == [Rename(order[0], Main), Rename(order[0], Wal), Rename(order[0], Shm)];
  }

  /** A name without the prefix renames nothing. */
  lemma {:induction false} UnprefixedMovesNothing(m: Legacy, p: Proc, name: string)
    requires !Prefixed(name)
    ensures DoAll(m, p, Renames([name])) == p && Moves(m, p, Renames([name])) == 0
  {
    var rs := Renames([name]);
    RenamesOfOne(name);
    DoAllAppend(m, p, rs[..1], rs[1..]);
    MovesAppend(m, p, rs[..1], rs[1..]);
    assert rs[..1] + rs[1..] == rs;
    assert rs[1..][..1] + rs[1..][1..] == rs[1..];
    DoAllAppend(m, p, rs[1..][..1], rs[1..][1..]);
    MovesAppend(m, p, rs[1..][..1], rs[1..][1..]);
  }

  /** One start of the server: the files, and whether the connection opened on store.db still leads
      to that file. */
  function One(present: bool): nat
  {
    if present then 1 else 0
  }

  lemma OneMove(m: Legacy, p: Proc, name: string, suffix: Suffix)
    requires "D-" <= name && !p.failed
    ensures var q := Do(m, p, Rename(name, suffix));
      && !q.failed && q.disk == Move(p.disk, DbFile(name, suffix), DbFile(name[2..], suffix))
      && forall other: Suffix :: other != suffix ==> (DbFile(name, other) in q.disk <==> DbFile(name, other) in p.disk)
  {
    assert |name[2..]| != |name|;
  }

  lemma {:induction false} OneRename(m: Legacy, p: Proc, before: seq<Micro>, s: Micro)
    ensures DoAll(m, p, before + [s]) == Do(m, DoAll(m, p, before), s)
    ensures Moves(m, p, before + [s]) == Moves(m, p, before) +
      One(s.Rename? && Prefixed(s.name) && DbFile(s.name, s.suffix) in DoAll(m, p, before).disk)
  {
    assert (before + [s])[..|before|] == before;
  }

  lemma {:induction false} FirstRename(m: Legacy, p: Proc, a: Micro)
    requires a.Rename? && Prefixed(a.name)
    ensures DoAll(m, p, [a]) == Do(m, p, a) && Moves(m, p, [a]) == One(DbFile(a.name, a.suffix) in p.disk)
  {
    OneRename(m, p, [], a);
    assert [] + [a] == [a];
  }

  lemma {:induction false} TwoRenames(m: Legacy, p: Proc, a: Micro, b: Micro)
    requires a.Rename? && b.Rename? && Prefixed(a.name) && Prefixed(b.name)
    ensures var q := Do(m, p, a);
      && DoAll(m, p, [a, b]) == Do(m, q, b)
      && Moves(m, p, [a, b]) == One(DbFile(a.name, a.suffix) in p.disk) + One(DbFile(b.name, b.suffix) in q.disk)
  {
    FirstRename(m, p, a);
    OneRename(m, p, [a], b);
    assert [a] + [b] == [a, b];
  }

  lemma {:induction false} ThreeRenames(m: Legacy, p: Proc, a: Micro, b: Micro, c: Micro)
    requires a.Rename? && b.Rename? && c.Rename? && Prefixed(a.name) && Prefixed(b.name) && Prefixed(c.name)
    ensures var q := Do(m, p, a);
      var r := Do(m, q, b);
      && DoAll(m, p, [a, b, c]) == Do(m, r, c)
      && Moves(m, p, [a, b, c]) == One(DbFile(a.name, a.suffix) in p.disk) + One(DbFile(b.name, b.suffix) in q.disk) +
         One(DbFile(c.name, c.suffix) in r.disk)
  {
    TwoRenames(m, p, a, b);
    OneRename(m, p, [a, b], c);
    assert [a, b] + [c] == [a, b, c];
  }

  /** The renames of one prefixed database move its three files to the name without the prefix, and
      are counted file by file. */
  lemma {:induction false} RenamesMoveDb(m: Legacy, p: Proc, name: string)
    requires "D-" <= name && !p.failed
    ensures DoAll(m, p, Renames([name])).disk == MoveDb(p.disk, name, name[2..])
    ensures Moves(m, p, Renames([name])) ==
      One(DbFile(name, Main) in p.disk) + One(DbFile(name, Wal) in p.disk) + One(DbFile(name, Shm) in p.disk)
  {
    RenamesOfOne(name);
    var q := Do(m, p, Rename(name, Main));
    ThreeRenames(m, p, Rename(name, Main), Rename(name, Wal), Rename(name, Shm));
    OneMove(m, p, name, Main);
    OneMove(m, q, name, Wal);
    OneMove(m, Do(m, q, Rename(name, Wal)), name, Shm);
  }

  class PrefixMigration {
    const legacy: Legacy
    var disk: Disk
    var storeOpen: bool
    var renamed: nat
    var updated: nat

    constructor (legacy: Legacy, disk: Disk)
      ensures this.legacy == legacy && View() == Start(disk) && renamed == 0 && updated == 0
    {
      this.legacy, this.disk, storeOpen := legacy, disk, true;
      renamed, updated := 0, 0;
    }

    ghost function View(): Proc
      reads this
    {
      Proc(disk, storeOpen, false)
    }

    /** Stat, then rename. */
    method RenameFile(name: string, newName: string, suffix: Suffix)
      requires "D-" <= name && newName == name[2..]
      modifies this`disk, this`storeOpen, this`renamed
      ensures View() == Do(legacy, old(View()), Rename(name, suffix))
      ensures renamed == old(renamed) + One(DbFile(name, suffix) in old(disk))
    {
      var from, to := DbFile(name, suffix), DbFile(newName, suffix);
      if from in disk {
        disk := (disk - {from})[to := disk[from]];
        storeOpen := storeOpen && to != STORE;
        renamed := renamed + 1;
      }
    }

    method RenameDBFile(name: string)
      modifies this`disk, this`storeOpen, this`renamed
      ensures View() == DoAll(legacy, old(View()), Renames([name]))
      ensures disk == if "D-" <= name then MoveDb(old(disk), name, name[2..]) else old(disk)
      ensures renamed == old(renamed) + Moves(legacy, old(View()), Renames([name]))
      ensures renamed == old(renamed) +
        if "D-" <= name then
          One(DbFile(name, Main) in old(disk)) + One(DbFile(name, Wal) in old(disk)) + One(DbFile(name, Shm) in old(disk))
        else 0
    {
      ghost var rs := Renames([name]);
      ghost var p := View();
      var (newName, stripped) := StripPrefix(name, "D-");
      if !stripped {
        UnprefixedMovesNothing(legacy, p, name);
        return;
      }
      var suffixes := [Main, Wal, Shm];
      RenamesOfOne(name);
      assert rs[..0] == [];
      for i := 0 to 3
        invariant View() == DoAll(legacy, p, rs[..i])
        invariant renamed == old(renamed) + Moves(legacy, p, rs[..i])
      {
        OneRename(legacy, p, rs[..i], rs[i]);
        assert rs[..i + 1] == rs[..i] + [rs[i]];
        RenameFile(name, newName, suffixes[i]);
      }
      assert rs[..3] == rs;
      RenamesMoveDb(legacy, p, name);
    }

    /** SELECT name FROM databases, in whatever order the rows come. */
    method Names(t: Tables) returns (names: seq<string>)
      ensures forall n :: n in names <==> n in t.names.Values
    {
      names := [];
      var left := t.names.Keys;
      while left != {}
        invariant left <= t.names.Keys
        invariant forall n :: n in names <==> exists id :: id in t.names.Keys - left && t.names[id] == n
        decreases |left|
      {
        var id :| id in left;
        names := names + [t.names[id]];
        left := left - {id};
      }
    }

    /** Fails, with nothing renamed, if registry.db is there without its tables. */
    method RenameDBFiles() returns (ok: bool, ghost order: seq<string>)
      modifies this`disk, this`storeOpen, this`renamed
      ensures QueryOrder(legacy, old(disk), order)
      ensures ok <==> REGISTRY !in old(disk) || legacy.tables(old(disk)[REGISTRY]).Some?
      ensures View() == DoAll(legacy, old(View()), Renames(order))
      ensures renamed == old(renamed) + Moves(legacy, old(View()), Renames(order))
    {
      if REGISTRY !in disk {
        return true, [];
      }
      var tables := legacy.tables(disk[REGISTRY]);
      if tables.None? {
        return false, [];
      }
      var names := Names(tables.value);
      ghost var p := View();
      assert names[..0] == [];
      for i := 0 to |names|
        invariant View() == DoAll(legacy, p, Renames(names[..i]))
        invariant renamed == old(renamed) + Moves(legacy, p, Renames(names[..i]))
      {
        assert names[..i + 1] == names[..i] + [names[i]];
        RenamesAppend(names[..i], names[i]);
        DoAllAppend(legacy, p, Renames(names[..i]), Renames([names[i]]));
        MovesAppend(legacy, p, Renames(names[..i]), Renames([names[i]]));
        RenameDBFile(names[i]);
      }
      assert names[..|names|] == names;
      ok, order := true, names;
    }

    /** One transaction over four columns, on whatever registry.db is now; rolled back if an UPDATE
        fails. */
    method UpdateRegistry() returns (ok: bool)
      requires Lawful(legacy)
      modifies this`disk, this`updated
      ensures Proc(disk, storeOpen, !ok) == Do(legacy, old(View()), Commit)
      ensures ok && REGISTRY in old(disk) ==>
        updated == old(updated) + ChangedRows(legacy.tables(old(disk)[REGISTRY]).value)
    {
      if REGISTRY !in disk {
        return true;
      }
      var tables := legacy.tables(disk[REGISTRY]);
      if tables.None? {
        return false;
      }
      var t, n := RewriteTables(legacy, tables.value);
      if t.None? {
        return false;
      }
      if t.value != tables.value {
        disk := disk[REGISTRY := legacy.save(disk[REGISTRY], t.value)];
      }
      updated := updated + n;
      ok := true;
    }

    /** RunOnce around run: what one start does that is not stopped. */
    method RunOnce() returns (ok: bool, ghost order: seq<string>)
      requires Lawful(legacy) && storeOpen
      modifies this
      ensures QueryOrder(legacy, old(disk), order) || Recorded(legacy, old(disk))
      ensures Proc(disk, storeOpen, !ok) == Finish(legacy, old(disk), order)
    {
      if STORE in disk && legacy.recorded(disk[STORE]) {
        return true, [];
      }
      ghost var d := disk;
      ok, order := RenameDBFiles();
      WholeProgram(legacy, d, order);
      if !ok {
        return;
      }
      ok := UpdateRegistry();
      if !ok {
        return;
      }
      if storeOpen {
        disk := disk[STORE := legacy.record(At(disk, STORE))];
      }
    }
  }

  lemma HasFirst(order: seq<string>)
    ensures order != [] ==> exists n :: n in order
  {
    if order != [] {
      assert order[0] in order;
    }
  }

  /** The phases one after the other. */
  lemma {:induction false} WholeProgram(m: Legacy, d: Disk, order: seq<string>)
    requires Lawful(m) && !Recorded(m, d) && QueryOrder(m, d, order)
    ensures REGISTRY !in d ==> order == []
    ensures REGISTRY in d && m.tables(d[REGISTRY]).None? ==>
      order == [] && Finish(m, d, order) == Start(d).(failed := true)
    ensures Finish(m, d, order) == Do(m, Do(m, DoAll(m, Start(d), Renames(order)), Commit), Record)
  {
    var p := Start(d);
    HasFirst(order);
    RecordLast(m, p, Renames(order));
    DoAllPrefix(m, p, Renames(order), [Commit]);
    if REGISTRY !in d {
      DoAllPrefix(m, p, [], [Record]);
      assert [] + [Record] == [Record];
    }
  }
}
