/** The one-time removal of legacy name prefixes (server/migrate/strip_prefixes.go) under RunOnce
    (server/db/registry.go): renames one by one, then one transaction, then the record that it
    ran. The server may stop between any two of these and start over. The tables are in registry.db
    and the record is in store.db, two of the files among which the renames are made. */
module Migration {
  import opened Prelude
  import opened DbFiles

  predicate Prefixed(s: string)
  {
    "D-" <= s
  }

  function StripPrefix(s: string, prefix: string): (string, bool)
  {
    if prefix <= s then (s[|prefix|..], true) else (s, false)
  }

  /** databases.name and databases.original_name. */
  function Strip(s: string): string
  {
    StripPrefix(s, "D-").0
  }

  /** stripBucketOrDBPrefix, for token revocations and audit events. */
  function StripEvent(s: string): string
  {
    if "D-" <= s then s[2..]
    else if "bkt-B-" <= s then "bkt-" + s[6..]
    else s
  }

  /** The columns of registry.db the migration rewrites, by primary key. */
  datatype Tables = Tables(
    names: map<string, string>, originals: map<string, Option<string>>,
    revocations: map<string, string>, audits: map<int, Option<string>>)

  function MapOption(v: Option<string>, f: string -> string): Option<string>
  {
    match v case None => None case Some(s) => Some(f(s))
  }

  function StripColumn(m: map<string, string>, f: string -> string): map<string, string>
  {
    map id | id in m :: f(m[id])
  }

  function StripNullable<K>(m: map<K, Option<string>>, f: string -> string): map<K, Option<string>>
  {
    map id | id in m :: MapOption(m[id], f)
  }

  function Rewritten(t: Tables): Tables
  {
    Tables(StripColumn(t.names, Strip), StripNullable(t.originals, Strip),
           StripColumn(t.revocations, StripEvent), StripNullable(t.audits, StripEvent))
  }

  const REGISTRY: DbFile := DbFile("registry", Main)
  const STORE: DbFile := DbFile("store", Main)

  /** What the two files hold, and what the legacy schema adds: whether databases.name is UNIQUE,
      and the order in which a query returns the rows. */
  datatype Legacy = Legacy(
    tables: Bytes -> Option<Tables>,       // None: not a database with these tables
    save: (Bytes, Tables) -> Bytes,
    recorded: Bytes -> bool,
    record: Option<Bytes> -> Bytes,
    unique: bool,
    rowOrder: map<string, string> -> seq<string>)

  ghost predicate Lists(ids: seq<string>, keys: set<string>)
  {
    && (forall id :: id in ids <==> id in keys)
    && (forall i, j :: 0 <= i < j < |ids| ==> ids[i] != ids[j])
  }

  /** What is written is read; an empty file holds neither tables nor record. */
  ghost predicate Lawful(m: Legacy)
  {
    && m.tables([]) == None && !m.recorded([])
    && (forall b, t :: m.tables(m.save(b, t)) == Some(t))
    && (forall b :: m.recorded(m.record(b)))
    && (forall names :: Lists(m.rowOrder(names), names.Keys))
  }

  // ---- One start of the server ----------------------------------------------------------

  /** A start in progress. storeOpen: the connection opened on store.db still leads to that file. */
  datatype Proc = Proc(disk: Disk, storeOpen: bool, failed: bool)

  datatype Micro = Rename(name: string, suffix: Suffix) | Commit | Record

  /** One UPDATE of databases.name, if its row changes; None if the constraint forbids it. */
  function StripRow(now: map<string, string>, id: string, unique: bool): Option<map<string, string>>
  {
    if id !in now || Strip(now[id]) == now[id] then Some(now)
    else if unique && exists other :: other in now && other != id && now[other] == Strip(now[id]) then None
    else Some(now[id := Strip(now[id])])
  }

  /** The UPDATEs row by row, the constraint checked at each. */
  function StripRows(names: map<string, string>, ids: seq<string>, unique: bool): Option<map<string, string>>
  {
    if ids == [] then Some(names)
    else
      match StripRows(names, ids[..|ids| - 1], unique)
      case None => None
      case Some(now) => StripRow(now, ids[|ids| - 1], unique)
  }

  /** Phase 2 opens registry.db anew: it fails if the tables are not there, or a name is taken. A
      transaction that changes no row writes nothing. */
  function CommitTo(m: Legacy, b: Bytes): Option<Bytes>
  {
    match m.tables(b)
    case None => None
    case Some(t) =>
      if StripRows(t.names, m.rowOrder(t.names), m.unique).None? then None
      else if Rewritten(t) == t then Some(b)
      else Some(m.save(b, Rewritten(t)))
  }

  function Do(m: Legacy, p: Proc, s: Micro): Proc
  {
    if p.failed then p
    else
      match s
      case Rename(name, suffix) =>
        var from, to := DbFile(name, suffix), DbFile(Strip(name), suffix);
        if !Prefixed(name) then p
        else p.(disk := Move(p.disk, from, to), storeOpen := p.storeOpen && !(to == STORE && from in p.disk))
      case Commit =>
        if REGISTRY !in p.disk then p
        else
          (match CommitTo(m, p.disk[REGISTRY])
           case None => p.(failed := true)
           case Some(b) => p.(disk := p.disk[REGISTRY := b]))
      case Record =>
        if p.storeOpen then p.(disk := p.disk[STORE := m.record(At(p.disk, STORE))]) else p
  }

  function DoAll(m: Legacy, p: Proc, ms: seq<Micro>): Proc
  {
    if ms == [] then p else Do(m, DoAll(m, p, ms[..|ms| - 1]), ms[|ms| - 1])
  }

  function Renames(order: seq<string>): seq<Micro>
  {
    if order == [] then []
    else [Rename(order[0], Main), Rename(order[0], Wal), Rename(order[0], Shm)] + Renames(order[1..])
  }

  function Start(d: Disk): Proc
  {
    Proc(d, true, false)
  }

  predicate Recorded(m: Legacy, d: Disk)
  {
    STORE in d && m.recorded(d[STORE])
  }

  /** What one start sets out to do, given the order in which the name query returns its rows. If
      the query fails there are no names, and the commit fails on the same file. */
  function Program(m: Legacy, d: Disk, order: seq<string>): seq<Micro>
  {
    if Recorded(m, d) then []
    else if REGISTRY !in d then [Record]
    else Renames(order) + [Commit, Record]
  }

  function NamesIn(m: Legacy, d: Disk): set<string>
  {
    if REGISTRY in d && m.tables(d[REGISTRY]).Some? then m.tables(d[REGISTRY]).value.names.Values else {}
  }

  ghost predicate QueryOrder(m: Legacy, d: Disk, order: seq<string>)
  {
    forall n :: n in order <==> n in NamesIn(m, d)
  }

  /** One start: the order of its query, and after how many micro-steps it stopped, by a crash or a
      failed rename. */
  datatype Attempt = Attempt(order: seq<string>, steps: nat)

  function Try(m: Legacy, d: Disk, a: Attempt): Disk
  {
    var ms := Program(m, d, a.order);
    DoAll(m, Start(d), ms[..if a.steps <= |ms| then a.steps else |ms|]).disk
  }

  /** A start that is not stopped. */
  function Finish(m: Legacy, d: Disk, order: seq<string>): Proc
  {
    DoAll(m, Start(d), Program(m, d, order))
  }

  ghost predicate PossibleTries(m: Legacy, d: Disk, tries: seq<Attempt>)
    decreases |tries|
  {
    tries == [] || (QueryOrder(m, d, tries[0].order) && PossibleTries(m, Try(m, d, tries[0]), tries[1..]))
  }

  function AfterTries(m: Legacy, d: Disk, tries: seq<Attempt>): Disk
    decreases |tries|
  {
    if tries == [] then d else AfterTries(m, Try(m, d, tries[0]), tries[1..])
  }

  // ---- When starting over is harmless ---------------------------------------------------

  /** Stripping twice is stripping once. */
  predicate SingleName(s: string)
  {
    !("D-D-" <= s)
  }

  predicate SingleEvent(s: string)
  {
    !("D-D-" <= s) && !("D-bkt-B-" <= s) && !("bkt-B-B-" <= s)
  }

  /** No stored name carries a second prefix under the first. */
  ghost predicate NoDoublePrefix(t: Tables)
  {
    && (forall id :: id in t.names ==> SingleName(t.names[id]))
    && (forall id :: id in t.originals && t.originals[id].Some? ==> SingleName(t.originals[id].value))
    && (forall id :: id in t.revocations ==> SingleEvent(t.revocations[id]))
    && (forall id :: id in t.audits && t.audits[id].Some? ==> SingleEvent(t.audits[id].value))
  }

  /** What stripping makes of every value. */
  lemma StripsAsIntended(x: string)
    ensures Strip("D-" + x) == x && StripEvent("D-" + x) == x && StripEvent("bkt-B-" + x) == "bkt-" + x
    ensures !("D-" <= x) ==> Strip(x) == x
    ensures !("D-" <= x) && !("bkt-B-" <= x) ==> StripEvent(x) == x
  {
    assert ("D-" + x)[2..] == x;
    assert ("bkt-B-" + x)[6..] == x && ("bkt-B-" + x)[0] == 'b';
  }

  lemma StripTwice(s: string)
    ensures Strip(Strip(s)) == Strip(s) <==> SingleName(s)
    ensures SingleName(s) ==> !Prefixed(Strip(s))
  {
    if Prefixed(s) {
      assert s == "D-" + s[2..];
      if Prefixed(s[2..]) {
        assert s[2..] == "D-" + s[4..];
        assert s == "D-D-" + s[4..];
        assert |Strip(Strip(s))| == |s| - 4;
      }
    }
  }

  lemma StripEventTwice(s: string)
    ensures StripEvent(StripEvent(s)) == StripEvent(s) <==> SingleEvent(s)
  {
    var t := StripEvent(s);
    if "D-" <= s {
      assert "D-D-" <= s <==> "D-" <= t by { PrefixUnder(s, "D-", "D-"); }
      assert "D-bkt-B-" <= s <==> "bkt-B-" <= t by { PrefixUnder(s, "D-", "bkt-B-"); }
    } else if "bkt-B-" <= s {
      assert "bkt-B-B-" <= s <==> "B-" <= s[6..] by { PrefixUnder(s, "bkt-B-", "B-"); }
      assert t == "bkt-" + s[6..];
      assert "bkt-B-" <= t <==> "B-" <= t[4..] by { PrefixUnder(t, "bkt-", "B-"); }
      assert t[4..] == s[6..];
    }
  }

  lemma PrefixUnder(s: string, p: string, q: string)
    requires p <= s
    ensures p + q <= s <==> q <= s[|p|..]
  {
    assert s == p + s[|p|..];
    if p + q <= s {
      assert s[|p|..][..|q|] == s[|p|..|p| + |q|] == (p + q)[|p|..] == q;
    }
  }

  /** A column settles after one pass exactly when each of its values does. */
  lemma NamesTwice(m: map<string, string>)
    ensures var once := StripColumn(m, Strip);
      StripColumn(once, Strip) == once <==> forall id :: id in m ==> SingleName(m[id])
  {
    var once := StripColumn(m, Strip);
    var twice := StripColumn(once, Strip);
    forall id | id in m ensures twice[id] == once[id] <==> SingleName(m[id]) {
      StripTwice(m[id]);
    }
  }

  lemma OriginalsTwice(m: map<string, Option<string>>)
    ensures var once := StripNullable(m, Strip);
      StripNullable(once, Strip) == once <==> forall id :: id in m && m[id].Some? ==> SingleName(m[id].value)
  {
    var once := StripNullable(m, Strip);
    var twice := StripNullable(once, Strip);
    forall id | id in m ensures twice[id] == once[id] <==> (m[id].Some? ==> SingleName(m[id].value)) {
      if m[id].Some? {
        StripTwice(m[id].value);
      }
    }
  }

  lemma RevocationsTwice(m: map<string, string>)
    ensures var once := StripColumn(m, StripEvent);
      StripColumn(once, StripEvent) == once <==> forall id :: id in m ==> SingleEvent(m[id])
  {
    var once := StripColumn(m, StripEvent);
    var twice := StripColumn(once, StripEvent);
    forall id | id in m ensures twice[id] == once[id] <==> SingleEvent(m[id]) {
      StripEventTwice(m[id]);
    }
  }

  lemma AuditTwice(v: Option<string>)
    ensures MapOption(MapOption(v, StripEvent), StripEvent) == MapOption(v, StripEvent) <==>
      (v.Some? ==> SingleEvent(v.value))
  {
    if v.Some? {
      StripEventTwice(v.value);
    }
  }

  lemma AuditsTwice(m: map<int, Option<string>>)
    ensures var once := StripNullable(m, StripEvent);
      StripNullable(once, StripEvent) == once <==> forall id :: id in m && m[id].Some? ==> SingleEvent(m[id].value)
  {
    var once := StripNullable(m, StripEvent);
    var twice := StripNullable(once, StripEvent);
    forall id | id in m ensures twice[id] == once[id] <==> (m[id].Some? ==> SingleEvent(m[id].value)) {
      AuditTwice(m[id]);
    }
    if forall id :: id in m && m[id].Some? ==> SingleEvent(m[id].value) {
      assert forall id :: id in m ==> twice[id] == once[id];
      assert twice == once;
    }
    if twice == once {
      forall id | id in m && m[id].Some? ensures SingleEvent(m[id].value) {
        assert twice[id] == once[id];
      }
    }
  }

  lemma RewriteTwice(t: Tables)
    ensures Rewritten(Rewritten(t)) == Rewritten(t) <==> NoDoublePrefix(t)
    ensures NoDoublePrefix(t) ==> forall id :: id in t.names ==> !Prefixed(Rewritten(t).names[id])
  {
    NamesTwice(t.names);
    OriginalsTwice(t.originals);
    RevocationsTwice(t.revocations);
    AuditsTwice(t.audits);
    forall id | id in t.names ensures SingleName(t.names[id]) ==> !Prefixed(Rewritten(t).names[id]) {
      StripTwice(t.names[id]);
    }
  }

  ghost function PrefixedNames(t: Tables): set<string>
  {
    set id | id in t.names && Prefixed(t.names[id]) :: t.names[id]
  }

  /** What the file f holds once every database in p has been renamed. */
  ghost function Final(d: Disk, p: set<string>, f: DbFile): Option<Bytes>
  {
    var source := DbFile("D-" + f.slug, f.suffix);
    if f.slug in p then None
    else if source.slug in p && source in d then Some(d[source])
    else At(d, f)
  }

  ghost predicate Distinct(names: map<string, string>)
  {
    forall id, other :: id in names && other in names && names[id] == names[other] ==> id == other
  }

  /** No database has a file that a rename would put in the place of registry.db or store.db. */
  ghost predicate KeepsOff(files: set<DbFile>, p: set<string>)
  {
    forall n :: n in p && DbFile(Strip(n), Main) in {REGISTRY, STORE} ==> DbFile(n, Main) !in files
  }

  /** The three conditions on the tables and on which files there are. */
  ghost predicate Safe(m: Legacy, t: Tables, files: set<DbFile>)
  {
    && NoDoublePrefix(t)
    && KeepsOff(files, PrefixedNames(t))
    && (m.unique ==> Distinct(StripColumn(t.names, Strip)))
  }

  ghost predicate Restartable(m: Legacy, d: Disk)
  {
    || Recorded(m, d) || REGISTRY !in d
    || (m.tables(d[REGISTRY]).Some? && Safe(m, m.tables(d[REGISTRY]).value, d.Keys))
  }

  // ---- The rows, one by one -------------------------------------------------------------

  ghost function Partly(names: map<string, string>, ids: seq<string>): map<string, string>
  {
    map id | id in names :: if id in ids then Strip(names[id]) else names[id]
  }

  lemma {:induction false} StripRowsIs(names: map<string, string>, ids: seq<string>, unique: bool)
    requires forall i, j :: 0 <= i < j < |ids| ==> ids[i] != ids[j]
    ensures var r := StripRows(names, ids, unique); r.Some? ==> r.value == Partly(names, ids)
  {
    if ids != [] {
      var init, id := ids[..|ids| - 1], ids[|ids| - 1];
      StripRowsIs(names, init, unique);
      assert ids == init + [id];
      assert id !in init;
    }
  }

  /** All rows done, the column is stripped. */
  lemma {:induction false} AllStripped(m: Legacy, names: map<string, string>)
    requires Lawful(m)
    ensures var r := StripRows(names, m.rowOrder(names), m.unique); r.Some? ==> r.value == StripColumn(names, Strip)
  {
    assert Lists(m.rowOrder(names), names.Keys);
    StripRowsIs(names, m.rowOrder(names), m.unique);
    assert Partly(names, m.rowOrder(names)) == StripColumn(names, Strip);
  }

  ghost predicate SingleNames(names: map<string, string>)
  {
    forall id :: id in names ==> SingleName(names[id])
  }

  /** No other row has, or already got, the name that a row is about to get. */
  lemma RowPasses(names: map<string, string>, done: seq<string>, id: string, unique: bool)
    requires SingleNames(names) && (unique ==> Distinct(StripColumn(names, Strip))) && id !in done
    ensures StripRow(Partly(names, done), id, unique).Some?
  {
    var now, end := Partly(names, done), StripColumn(names, Strip);
    if unique && id in names {
      forall other | other in names && other != id ensures now[other] != Strip(now[id]) {
        StripTwice(names[id]);
        StripTwice(names[other]);
        assert end[other] != end[id];
      }
    }
  }

  lemma {:induction false} RowsPass(names: map<string, string>, ids: seq<string>, unique: bool)
    requires SingleNames(names) && (unique ==> Distinct(StripColumn(names, Strip)))
    requires forall i, j :: 0 <= i < j < |ids| ==> ids[i] != ids[j]
    ensures StripRows(names, ids, unique).Some?
  {
    if ids != [] {
      var init, id := ids[..|ids| - 1], ids[|ids| - 1];
      RowsPass(names, init, unique);
      StripRowsIs(names, init, unique);
      RowPasses(names, init, id, unique);
    }
  }

  lemma {:induction false} StaysNone(names: map<string, string>, ids: seq<string>, k: nat, unique: bool)
    requires k <= |ids| && StripRows(names, ids[..k], unique).None?
    ensures StripRows(names, ids, unique).None?
  {
    if k == |ids| {
      assert ids[..k] == ids;
    } else {
      assert ids[..|ids| - 1][..k] == ids[..k];
      StaysNone(names, ids[..|ids| - 1], k, unique);
    }
  }

  /** Where one of two rows is about to get the name the other has already. */
  lemma {:induction false} RowClashes(names: map<string, string>, ids: seq<string>, k: nat, other: string)
    requires k < |ids| && ids[k] in names && other in names && other != ids[k]
    requires forall i, j :: 0 <= i < j < |ids| ==> ids[i] != ids[j]
    requires Prefixed(names[ids[k]]) && Strip(names[other]) == Strip(names[ids[k]])
    requires !Prefixed(names[other]) || other in ids[..k]
    ensures StripRows(names, ids, true).None?
  {
    var done, id := ids[..k], ids[k];
    StripRowsIs(names, done, true);
    assert ids[..k + 1][..k] == done && id !in done;
    if StripRows(names, done, true).Some? {
      var now := Partly(names, done);
      assert now[other] == Strip(names[other]) && now[id] == names[id];
      assert |Strip(names[id])| < |names[id]|;
    }
    StaysNone(names, ids, k + 1, true);
  }

  lemma {:induction false} RowsFail(names: map<string, string>, ids: seq<string>)
    requires Distinct(names) && !Distinct(StripColumn(names, Strip)) && Lists(ids, names.Keys)
    ensures StripRows(names, ids, true).None?
  {
    var end := StripColumn(names, Strip);
    var a, b :| a in end && b in end && end[a] == end[b] && a != b;
    var i :| 0 <= i < |ids| && ids[i] == a;
    var j :| 0 <= j < |ids| && ids[j] == b;
    if Prefixed(names[a]) && (!Prefixed(names[b]) || j < i) {
      RowClashes(names, ids, i, b);
    } else {
      RowClashes(names, ids, j, a);
    }
  }

  /** On names without a double prefix the row loop is stopped exactly by a name that two rows would
      share at the end, in whatever order it goes. */
  lemma {:induction false} RowsPassIff(m: Legacy, names: map<string, string>)
    requires Lawful(m) && SingleNames(names) && (m.unique ==> Distinct(names))
    ensures StripRows(names, m.rowOrder(names), m.unique).Some? <==>
      (m.unique ==> Distinct(StripColumn(names, Strip)))
  {
    assert Lists(m.rowOrder(names), names.Keys);
    if m.unique ==> Distinct(StripColumn(names, Strip)) {
      RowsPass(names, m.rowOrder(names), m.unique);
    } else {
      RowsFail(names, m.rowOrder(names));
    }
  }

  // ---- Where a world is heading ---------------------------------------------------------

  /** What registry.db holds in the end. */
  function Migrated(m: Legacy, b: Bytes, t: Tables): Bytes
  {
    if Rewritten(t) == t then b else m.save(b, Rewritten(t))
  }

  /** What the file f holds in the end: the migrated tables, the record, or a renamed database. */
  ghost function EndOf(m: Legacy, d: Disk, b: Bytes, t: Tables, f: DbFile): Option<Bytes>
  {
    if f == REGISTRY then Some(Migrated(m, b, t))
    else if f == STORE then Some(m.record(At(d, STORE)))
    else Final(d, PrefixedNames(t), f)
  }

  /** e is the finished migration of d. */
  ghost predicate EndsAt(m: Legacy, d: Disk, e: Disk)
  {
    if Recorded(m, d) then e == d
    else if REGISTRY !in d then e == d[STORE := m.record(At(d, STORE))]
    else
      && m.tables(d[REGISTRY]).Some?
      && forall f :: At(e, f) == EndOf(m, d, d[REGISTRY], m.tables(d[REGISTRY]).value, f)
  }

  lemma EndUnique(m: Legacy, d: Disk, e: Disk, e': Disk)
    requires EndsAt(m, d, e) && EndsAt(m, d, e')
    ensures e == e'
  {
    if !Recorded(m, d) && REGISTRY in d {
      DiskExtensional(e, e');
    }
  }

  ghost predicate SinglePrefixes(p: set<string>)
  {
    forall n :: n in p ==> Prefixed(n) && SingleName(n)
  }

  lemma PrefixedNamesSingle(t: Tables)
    requires NoDoublePrefix(t)
    ensures SinglePrefixes(PrefixedNames(t))
  {
  }

  /** Any one rename brings no file off its course. */
  lemma RenameKeepsFinal(d: Disk, p: set<string>, n: string, suffix: Suffix, f: DbFile)
    requires SinglePrefixes(p) && n in p
    ensures Final(Move(d, DbFile(n, suffix), DbFile(Strip(n), suffix)), p, f) == Final(d, p, f)
  {
    StripTwice(n);
    assert n == "D-" + Strip(n);
    var source := DbFile("D-" + f.slug, f.suffix);
    if source.slug == n {
      assert f.slug == source.slug[2..] == Strip(n);
    }
  }

  /** ms only renames databases named in p. */
  ghost predicate OnlyRenames(ms: seq<Micro>, p: set<string>)
  {
    forall i :: 0 <= i < |ms| ==> ms[i].Rename? && (Prefixed(ms[i].name) ==> ms[i].name in p)
  }

  lemma RenameKeepsOff(d: Disk, p: set<string>, n: string, suffix: Suffix)
    requires SinglePrefixes(p) && KeepsOff(d.Keys, p) && n in p
    ensures var e := Move(d, DbFile(n, suffix), DbFile(Strip(n), suffix));
      && KeepsOff(e.Keys, p) && At(e, REGISTRY) == At(d, REGISTRY) && At(e, STORE) == At(d, STORE)
      && !(DbFile(Strip(n), suffix) == STORE && DbFile(n, suffix) in d)
      && DbFile(n, suffix) !in e
  {
    StripTwice(n);
    assert n != "registry" && n != "store";
  }

  /** Any number of renames in any order keeps every file on its course, takes each renamed file
      away for good, and keeps off the registry and the record. */
  lemma {:induction false} RenamesKeepFinal(m: Legacy, p: Proc, ms: seq<Micro>, names: set<string>)
    requires !p.failed && p.storeOpen && SinglePrefixes(names) && KeepsOff(p.disk.Keys, names) && OnlyRenames(ms, names)
    ensures var q := DoAll(m, p, ms);
      && !q.failed && q.storeOpen && KeepsOff(q.disk.Keys, names)
      && At(q.disk, REGISTRY) == At(p.disk, REGISTRY) && At(q.disk, STORE) == At(p.disk, STORE)
    ensures forall f :: Final(DoAll(m, p, ms).disk, names, f) == Final(p.disk, names, f)
    ensures forall i :: 0 <= i < |ms| && Prefixed(ms[i].name) ==>
      DbFile(ms[i].name, ms[i].suffix) !in DoAll(m, p, ms).disk
  {
    if ms != [] {
      var init, s := ms[..|ms| - 1], ms[|ms| - 1];
      RenamesKeepFinal(m, p, init, names);
      var mid := DoAll(m, p, init);
      if Prefixed(s.name) {
        StripTwice(s.name);
        RenameKeepsOff(mid.disk, names, s.name, s.suffix);
        forall f ensures Final(DoAll(m, p, ms).disk, names, f) == Final(mid.disk, names, f) {
          RenameKeepsFinal(mid.disk, names, s.name, s.suffix, f);
        }
      }
    }
  }

  lemma {:induction false} RenamesCover(order: seq<string>, n: string, suffix: Suffix)
    requires n in order
    ensures Rename(n, suffix) in Renames(order)
  {
    if n != order[0] {
      RenamesCover(order[1..], n, suffix);
    }
  }

  lemma {:induction false} RenamesNameOnly(order: seq<string>, p: set<string>)
    requires forall n :: n in order && Prefixed(n) ==> n in p
    ensures OnlyRenames(Renames(order), p)
  {
    if order != [] {
      RenamesNameOnly(order[1..], p);
    }
  }

  lemma {:induction false} DoAllPrefix(m: Legacy, p: Proc, ms: seq<Micro>, more: seq<Micro>)
    ensures more == [] ==> DoAll(m, p, ms + more) == DoAll(m, p, ms)
    ensures |more| == 1 ==> DoAll(m, p, ms + more) == Do(m, DoAll(m, p, ms), more[0])
    ensures |more| == 2 ==> DoAll(m, p, ms + more) == Do(m, Do(m, DoAll(m, p, ms), more[0]), more[1])
  {
    if more == [] {
      assert ms + more == ms;
    } else if |more| == 1 {
      assert (ms + more)[..|ms|] == ms;
    } else if |more| == 2 {
      assert (ms + more)[..|ms| + 1] == ms + [more[0]];
      assert (ms + [more[0]])[..|ms|] == ms;
    }
  }

  /** A world whose tables are there, not yet migrated as far as the record says, and safe. */
  ghost predicate Under(m: Legacy, d: Disk, t: Tables, order: seq<string>)
  {
    && Lawful(m) && !Recorded(m, d) && REGISTRY in d && m.tables(d[REGISTRY]) == Some(t) && Safe(m, t, d.Keys)
    && QueryOrder(m, d, order) && (m.unique ==> Distinct(t.names))
  }

  /** After phase 1 the disk is the finished one, but for the registry and the record. */
  lemma {:induction false} PhaseOneFinishesFiles(m: Legacy, d: Disk, t: Tables, order: seq<string>)
    requires Under(m, d, t, order)
    ensures var v := DoAll(m, Start(d), Renames(order));
      && !v.failed && v.storeOpen && At(v.disk, REGISTRY) == At(d, REGISTRY) && At(v.disk, STORE) == At(d, STORE)
      && forall f :: At(v.disk, f) == Final(d, PrefixedNames(t), f)
  {
    var p := PrefixedNames(t);
    var v := DoAll(m, Start(d), Renames(order));
    PrefixedNamesSingle(t);
    RenamesNameOnly(order, p);
    RenamesKeepFinal(m, Start(d), Renames(order), p);
    forall f ensures At(v.disk, f) == Final(d, p, f) {
      forall n, suffix | n in p ensures DbFile(n, suffix) !in v.disk {
        RenamesCover(order, n, suffix);
        var i :| 0 <= i < |Renames(order)| && Renames(order)[i] == Rename(n, suffix);
        assert DbFile(Renames(order)[i].name, Renames(order)[i].suffix) !in v.disk;
      }
      assert Final(v.disk, p, f) == At(v.disk, f);
    }
  }

  /** Phase 2 then goes through. */
  lemma CommitPasses(m: Legacy, d: Disk, t: Tables)
    requires Lawful(m) && REGISTRY in d && m.tables(d[REGISTRY]) == Some(t) && Safe(m, t, d.Keys)
    requires m.unique ==> Distinct(t.names)
    ensures CommitTo(m, d[REGISTRY]) == Some(Migrated(m, d[REGISTRY], t))
    ensures m.tables(Migrated(m, d[REGISTRY], t)) == Some(Rewritten(t))
  {
    RowsPassIff(m, t.names);
  }

  lemma {:induction false} PhaseTwo(m: Legacy, d: Disk, t: Tables, order: seq<string>)
    requires Under(m, d, t, order)
    ensures var v, w := DoAll(m, Start(d), Renames(order)), DoAll(m, Start(d), Renames(order) + [Commit]);
      w == v.(disk := v.disk[REGISTRY := Migrated(m, d[REGISTRY], t)])
  {
    PhaseOneFinishesFiles(m, d, t, order);
    var v := DoAll(m, Start(d), Renames(order));
    DoAllPrefix(m, Start(d), Renames(order), [Commit]);
    assert At(v.disk, REGISTRY) == Some(d[REGISTRY]);
    CommitPasses(m, d, t);
  }

  /** A complete run succeeds and finishes the migration. */
  lemma CompleteEnds(m: Legacy, d: Disk, order: seq<string>)
    requires Lawful(m) && Restartable(m, d) && QueryOrder(m, d, order) && NamesAllowed(m, d)
    ensures !Finish(m, d, order).failed && EndsAt(m, d, Finish(m, d, order).disk)
  {
    if Recorded(m, d) {
    } else if REGISTRY !in d {
      DoAllPrefix(m, Start(d), [], [Record]);
      assert [] + [Record] == Program(m, d, order);
    } else {
      var t := m.tables(d[REGISTRY]).value;
      AllPhases(m, d, t, order);
      PhaseOneFinishesFiles(m, d, t, order);
      Assembled(m, d, t, DoAll(m, Start(d), Renames(order)).disk);
    }
  }

  lemma {:induction false} AllPhases(m: Legacy, d: Disk, t: Tables, order: seq<string>)
    requires Under(m, d, t, order)
    ensures var v := DoAll(m, Start(d), Renames(order));
      Finish(m, d, order) ==
        v.(disk := v.disk[REGISTRY := Migrated(m, d[REGISTRY], t)][STORE := m.record(At(d, STORE))])
  {
    var v := DoAll(m, Start(d), Renames(order));
    PhaseOneFinishesFiles(m, d, t, order);
    PhaseTwo(m, d, t, order);
    RecordLast(m, Start(d), Renames(order));
    assert At(v.disk[REGISTRY := Migrated(m, d[REGISTRY], t)], STORE) == At(d, STORE);
  }

  lemma Assembled(m: Legacy, d: Disk, t: Tables, v: Disk)
    requires !Recorded(m, d) && REGISTRY in d && m.tables(d[REGISTRY]) == Some(t)
    requires forall f :: At(v, f) == Final(d, PrefixedNames(t), f)
    ensures EndsAt(m, d, v[REGISTRY := Migrated(m, d[REGISTRY], t)][STORE := m.record(At(d, STORE))])
  {
    var e := v[REGISTRY := Migrated(m, d[REGISTRY], t)][STORE := m.record(At(d, STORE))];
    forall f ensures At(e, f) == EndOf(m, d, d[REGISTRY], t, f) {
      assert At(v, f) == Final(d, PrefixedNames(t), f);
    }
  }

  lemma {:induction false} RecordLast(m: Legacy, p: Proc, rs: seq<Micro>)
    ensures DoAll(m, p, rs + [Commit, Record]) == Do(m, DoAll(m, p, rs + [Commit]), Record)
  {
    DoAllPrefix(m, p, rs, [Commit, Record]);
    DoAllPrefix(m, p, rs, [Commit]);
  }

  /** The stored names meet the constraint of their own column. */
  ghost predicate NamesAllowed(m: Legacy, d: Disk)
  {
    m.unique && REGISTRY in d && m.tables(d[REGISTRY]).Some? ==> Distinct(m.tables(d[REGISTRY]).value.names)
  }

  // ---- Every attempt, finished or not ---------------------------------------------------

  /** From here the migration can be stopped and restarted at will, and e is where it ends. */
  ghost predicate Heading(m: Legacy, d: Disk, e: Disk)
  {
    Lawful(m) && Restartable(m, d) && NamesAllowed(m, d) && EndsAt(m, d, e)
  }

  /** A start that finds nothing to migrate, stopped before or after its record. */
  lemma {:induction false} StopWithoutTables(m: Legacy, d: Disk, order: seq<string>, k: nat, e: Disk)
    requires Heading(m, d, e) && (Recorded(m, d) || REGISTRY !in d) && k <= |Program(m, d, order)|
    ensures Heading(m, DoAll(m, Start(d), Program(m, d, order)[..k]).disk, e)
  {
    NothingOrRecord(m, d, order, k);
    if DoAll(m, Start(d), Program(m, d, order)[..k]).disk != d {
      RecordedIsDone(m, d, e);
    }
  }

  lemma {:induction false} NothingOrRecord(m: Legacy, d: Disk, order: seq<string>, k: nat)
    requires (Recorded(m, d) || REGISTRY !in d) && k <= |Program(m, d, order)|
    ensures var v := DoAll(m, Start(d), Program(m, d, order)[..k]).disk;
      v == d || (!Recorded(m, d) && REGISTRY !in d && v == d[STORE := m.record(At(d, STORE))])
  {
    var ms := Program(m, d, order)[..k];
    if k > 0 {
      assert ms == [Record] && ms[..0] == [];
      assert DoAll(m, Start(d), ms) == Do(m, Start(d), Record);
    }
  }

  lemma RecordedIsDone(m: Legacy, d: Disk, e: Disk)
    requires Heading(m, d, e) && !Recorded(m, d) && REGISTRY !in d
    ensures Heading(m, d[STORE := m.record(At(d, STORE))], e)
  {
    var v := d[STORE := m.record(At(d, STORE))];
    assert REGISTRY !in v && Recorded(m, v);
  }

  lemma {:induction false} StopInPhaseOne(m: Legacy, d: Disk, t: Tables, order: seq<string>, k: nat, e: Disk)
    requires Under(m, d, t, order) && EndsAt(m, d, e) && k <= |Renames(order)|
    ensures Heading(m, DoAll(m, Start(d), Program(m, d, order)[..k]).disk, e)
  {
    var rs, names := Renames(order), PrefixedNames(t);
    var v := DoAll(m, Start(d), rs[..k]).disk;
    assert Program(m, d, order)[..k] == rs[..k];
    PrefixedNamesSingle(t);
    RenamesNameOnly(order, names);
    RenamesKeepFinal(m, Start(d), rs[..k], names);
    assert At(v, REGISTRY) == Some(d[REGISTRY]);
    forall f ensures At(e, f) == EndOf(m, v, d[REGISTRY], t, f) {
      assert Final(v, names, f) == Final(d, names, f);
      assert At(e, f) == EndOf(m, d, d[REGISTRY], t, f);
    }
  }

  /** Migrated tables have nothing left to migrate. */
  lemma MigratedIsSettled(m: Legacy, t: Tables, d: Disk)
    requires Safe(m, t, d.Keys)
    ensures NoDoublePrefix(Rewritten(t)) && Rewritten(Rewritten(t)) == Rewritten(t) && PrefixedNames(Rewritten(t)) == {}
    ensures StripColumn(Rewritten(t).names, Strip) == Rewritten(t).names
    ensures m.unique ==> Distinct(Rewritten(t).names)
  {
    RewriteTwice(t);
    RewriteTwice(Rewritten(t));
  }

  lemma {:induction false} StopBeforeRecord(m: Legacy, d: Disk, t: Tables, order: seq<string>, e: Disk)
    requires Under(m, d, t, order) && EndsAt(m, d, e)
    ensures Heading(m, DoAll(m, Start(d), Renames(order) + [Commit]).disk, e)
  {
    var v := DoAll(m, Start(d), Renames(order)).disk;
    var b := Migrated(m, d[REGISTRY], t);
    var w := v[REGISTRY := b];
    PhaseOneFinishesFiles(m, d, t, order);
    PhaseTwo(m, d, t, order);
    CommitPasses(m, d, t);
    MigratedIsSettled(m, t, d);
    assert At(w, STORE) == At(d, STORE);
    Settled(m, d, t, v, w, e);
  }

  lemma Settled(m: Legacy, d: Disk, t: Tables, v: Disk, w: Disk, e: Disk)
    requires Lawful(m) && !Recorded(m, d) && REGISTRY in d && m.tables(d[REGISTRY]) == Some(t) && EndsAt(m, d, e)
    requires forall f :: At(v, f) == Final(d, PrefixedNames(t), f)
    requires w == v[REGISTRY := Migrated(m, d[REGISTRY], t)] && At(w, STORE) == At(d, STORE)
    requires m.tables(w[REGISTRY]) == Some(Rewritten(t)) && PrefixedNames(Rewritten(t)) == {}
    requires NoDoublePrefix(Rewritten(t)) && Rewritten(Rewritten(t)) == Rewritten(t)
    requires StripColumn(Rewritten(t).names, Strip) == Rewritten(t).names
    requires m.unique ==> Distinct(Rewritten(t).names)
    ensures Heading(m, w, e)
  {
    forall f ensures At(e, f) == EndOf(m, w, w[REGISTRY], Rewritten(t), f) {
      assert At(e, f) == EndOf(m, d, d[REGISTRY], t, f);
      assert At(v, f) == Final(d, PrefixedNames(t), f);
    }
  }

  lemma StopAtEnd(m: Legacy, d: Disk, t: Tables, order: seq<string>, e: Disk)
    requires Under(m, d, t, order) && EndsAt(m, d, e)
    ensures Heading(m, Finish(m, d, order).disk, e)
  {
    AllPhases(m, d, t, order);
    CompleteEnds(m, d, order);
    EndUnique(m, d, e, Finish(m, d, order).disk);
    CommitPasses(m, d, t);
    MigratedIsSettled(m, t, d);
  }

  /** Wherever a run stops, the world is heading for the same end. */
  lemma TryKeepsEnd(m: Legacy, d: Disk, a: Attempt, e: Disk)
    requires Heading(m, d, e) && QueryOrder(m, d, a.order)
    ensures Heading(m, Try(m, d, a), e)
  {
    var ms := Program(m, d, a.order);
    var k := if a.steps <= |ms| then a.steps else |ms|;
    if Recorded(m, d) || REGISTRY !in d {
      StopWithoutTables(m, d, a.order, k, e);
    } else {
      var t, rs := m.tables(d[REGISTRY]).value, Renames(a.order);
      if k <= |rs| {
        StopInPhaseOne(m, d, t, a.order, k, e);
      } else if k == |rs| + 1 {
        assert ms[..k] == rs + [Commit];
        StopBeforeRecord(m, d, t, a.order, e);
      } else {
        assert ms[..k] == ms;
        StopAtEnd(m, d, t, a.order, e);
      }
    }
  }

  lemma {:induction false} TriesKeepEnd(m: Legacy, d: Disk, tries: seq<Attempt>, e: Disk)
    requires Heading(m, d, e) && PossibleTries(m, d, tries)
    ensures Heading(m, AfterTries(m, d, tries), e)
    decreases |tries|
  {
    if tries != [] {
      TryKeepsEnd(m, d, tries[0], e);
      TriesKeepEnd(m, Try(m, d, tries[0]), tries[1..], e);
    }
  }

  /** Stopping any number of times, each time after any micro-step, and then running to the end
      succeeds and gives the files, rows and record of one uninterrupted run. */
  lemma {:induction false} CrashConvergence(m: Legacy, d: Disk, tries: seq<Attempt>, order: seq<string>, direct: seq<string>)
    requires Lawful(m) && Restartable(m, d) && NamesAllowed(m, d) && PossibleTries(m, d, tries)
    requires QueryOrder(m, AfterTries(m, d, tries), order) && QueryOrder(m, d, direct)
    ensures !Finish(m, AfterTries(m, d, tries), order).failed
    ensures Finish(m, AfterTries(m, d, tries), order).disk == Finish(m, d, direct).disk
  {
    var e, last := Finish(m, d, direct).disk, AfterTries(m, d, tries);
    CompleteEnds(m, d, direct);
    TriesKeepEnd(m, d, tries, e);
    CompleteEnds(m, last, order);
    EndUnique(m, last, Finish(m, last, order).disk, e);
  }

  lemma {:induction false} SomeOrder(names: set<string>) returns (order: seq<string>)
    ensures forall n :: n in order <==> n in names
    decreases |names|
  {
    order := [];
    if names != {} {
      var n :| n in names;
      var rest := SomeOrder(names - {n});
      order := [n] + rest;
    }
  }

  /** However often it is stopped, the next start that is not succeeds, always with the same end. */
  ghost predicate Converges(m: Legacy, d: Disk)
  {
    forall tries, order, direct ::
      PossibleTries(m, d, tries) && QueryOrder(m, AfterTries(m, d, tries), order) && QueryOrder(m, d, direct) ==>
        && !Finish(m, AfterTries(m, d, tries), order).failed
        && Finish(m, AfterTries(m, d, tries), order).disk == Finish(m, d, direct).disk
  }

  // ---- When it is not -------------------------------------------------------------------

  /** No file but registry.db looks like the registry, and none holds the record. */
  ghost predicate Ordinary(m: Legacy, d: Disk)
  {
    forall f :: f in d && f != REGISTRY ==> m.tables(d[f]).None? && !m.recorded(d[f])
  }

  predicate AllRenames(ms: seq<Micro>)
  {
    forall i :: 0 <= i < |ms| ==> ms[i].Rename?
  }

  lemma {:induction false} RenamesAreRenames(order: seq<string>)
    ensures AllRenames(Renames(order))
  {
    if order != [] {
      RenamesAreRenames(order[1..]);
    }
  }

  const LANDS_ON_REGISTRY: DbFile := DbFile("D-registry", Main)
  const LANDS_ON_STORE: DbFile := DbFile("D-store", Main)

  lemma LandingNames()
    ensures !Prefixed("registry") && !Prefixed("store")
    ensures "D-" + "registry" == "D-registry" && "D-" + "store" == "D-store"
    ensures Prefixed("D-registry") && Strip("D-registry") == "registry" && Prefixed("D-store") && Strip("D-store") == "store"
  {
    assert "registry"[0] == 'r' && "store"[0] == 's';
    assert "D-registry"[2..] == "registry" && "D-store"[2..] == "store";
  }

  /** What renames can do to registry.db: nothing, or put a file without the tables in its place. */
  lemma {:induction false} RenamesOrdinary(m: Legacy, p: Proc, ms: seq<Micro>)
    requires !p.failed && Ordinary(m, p.disk) && REGISTRY in p.disk && AllRenames(ms)
    ensures var q := DoAll(m, p, ms);
      && !q.failed && Ordinary(m, q.disk) && REGISTRY in q.disk
      && (q.disk[REGISTRY] == p.disk[REGISTRY] || m.tables(q.disk[REGISTRY]).None?)
  {
    if ms != [] {
      RenamesOrdinary(m, p, ms[..|ms| - 1]);
      LandingNames();
    }
  }

  lemma StripIs(n: string, s: string)
    requires Prefixed(n) && Strip(n) == s
    ensures n == "D-" + s
  {
  }

  /** A database named D-registry, with its file, is put in the place of registry.db. */
  lemma {:induction false} RegistryHit(m: Legacy, p: Proc, ms: seq<Micro>)
    requires !p.failed && Ordinary(m, p.disk) && REGISTRY in p.disk && AllRenames(ms)
    requires LANDS_ON_REGISTRY in p.disk
    ensures var q := DoAll(m, p, ms);
      && REGISTRY in q.disk
      && (LANDS_ON_REGISTRY in q.disk || m.tables(q.disk[REGISTRY]).None?)
      && (Rename("D-registry", Main) in ms ==> m.tables(q.disk[REGISTRY]).None?)
  {
    LandingNames();
    RenamesOrdinary(m, p, ms);
    if ms != [] {
      var init, s := ms[..|ms| - 1], ms[|ms| - 1];
      RegistryHit(m, p, init);
      RenamesOrdinary(m, p, init);
      assert ms == init + [s];
      if Prefixed(s.name) && Strip(s.name) == "registry" {
        StripIs(s.name, "registry");
      }
    }
  }

  /** A database named D-store, with its file, is put in the place of store.db. */
  lemma {:induction false} StoreHit(m: Legacy, p: Proc, ms: seq<Micro>)
    requires !p.failed && Ordinary(m, p.disk) && REGISTRY in p.disk && AllRenames(ms)
    requires LANDS_ON_STORE in p.disk
    ensures var q := DoAll(m, p, ms);
      && (LANDS_ON_STORE in q.disk || !q.storeOpen)
      && (Rename("D-store", Main) in ms ==> !q.storeOpen)
      && (p.storeOpen && !q.storeOpen ==> STORE in q.disk)
  {
    LandingNames();
    if ms != [] {
      var init, s := ms[..|ms| - 1], ms[|ms| - 1];
      StoreHit(m, p, init);
      RenamesOrdinary(m, p, init);
      assert ms == init + [s];
    }
  }

  /** The transaction, wherever the renames left registry.db. */
  lemma {:induction false} CommitOrdinary(m: Legacy, d: Disk, order: seq<string>)
    requires Lawful(m) && Ordinary(m, d) && REGISTRY in d
    ensures var v, w := DoAll(m, Start(d), Renames(order)), DoAll(m, Start(d), Renames(order) + [Commit]);
      && Ordinary(m, v.disk) && Ordinary(m, w.disk) && REGISTRY in v.disk && REGISTRY in w.disk
      && (v.disk[REGISTRY] == d[REGISTRY] || m.tables(v.disk[REGISTRY]).None?)
      && (w.failed <==> CommitTo(m, v.disk[REGISTRY]).None?)
      && (!w.failed ==>
            m.tables(d[REGISTRY]).Some? && m.tables(w.disk[REGISTRY]) == Some(Rewritten(m.tables(d[REGISTRY]).value)))
      && w.storeOpen == v.storeOpen && At(w.disk, STORE) == At(v.disk, STORE)
  {
    RenamesAreRenames(order);
    RenamesOrdinary(m, Start(d), Renames(order));
    DoAllPrefix(m, Start(d), Renames(order), [Commit]);
  }

  /** The record comes last and leaves registry.db alone. */
  lemma {:induction false} FinishIs(m: Legacy, d: Disk, order: seq<string>)
    requires Lawful(m) && Ordinary(m, d) && REGISTRY in d
    ensures var w, q := DoAll(m, Start(d), Renames(order) + [Commit]), Finish(m, d, order);
      && q.failed == w.failed && REGISTRY in q.disk && REGISTRY in w.disk && q.disk[REGISTRY] == w.disk[REGISTRY]
      && (!w.failed && w.storeOpen ==> Recorded(m, q.disk))
      && (!w.failed && !w.storeOpen ==> q.disk == w.disk)
  {
    CommitOrdinary(m, d, order);
    RecordLast(m, Start(d), Renames(order));
  }

  /** Two rows would end up with one name, which the schema forbids. */
  ghost predicate NameTaken(m: Legacy, t: Tables)
  {
    m.unique && SingleNames(t.names) && Distinct(t.names) && !Distinct(StripColumn(t.names, Strip))
  }

  /** A world in which no start will ever get through. */
  ghost predicate Doomed(m: Legacy, d: Disk)
  {
    && Lawful(m) && Ordinary(m, d) && REGISTRY in d
    && match m.tables(d[REGISTRY])
       case None => true
       case Some(t) => (LANDS_ON_REGISTRY in d && "D-registry" in t.names.Values) || NameTaken(m, t)
  }

  lemma {:induction false} DoomedFails(m: Legacy, d: Disk, order: seq<string>)
    requires Doomed(m, d) && QueryOrder(m, d, order)
    ensures DoAll(m, Start(d), Renames(order) + [Commit]).failed && Finish(m, d, order).failed
  {
    var v := DoAll(m, Start(d), Renames(order));
    FinishIs(m, d, order);
    CommitOrdinary(m, d, order);
    if m.tables(d[REGISTRY]).Some? {
      var t := m.tables(d[REGISTRY]).value;
      if NameTaken(m, t) {
        RowsPassIff(m, t.names);
      } else {
        RenamesAreRenames(order);
        RenamesCover(order, "D-registry", Main);
        RegistryHit(m, Start(d), Renames(order));
      }
    }
  }

  lemma {:induction false} DoomedInPhaseOne(m: Legacy, d: Disk, ms: seq<Micro>)
    requires Doomed(m, d) && AllRenames(ms)
    ensures Doomed(m, DoAll(m, Start(d), ms).disk)
  {
    RenamesOrdinary(m, Start(d), ms);
    if LANDS_ON_REGISTRY in d {
      RegistryHit(m, Start(d), ms);
    }
  }

  lemma DoomedStays(m: Legacy, d: Disk, a: Attempt)
    requires Doomed(m, d) && QueryOrder(m, d, a.order)
    ensures Doomed(m, Try(m, d, a))
  {
    var rs, ms := Renames(a.order), Program(m, d, a.order);
    var k := if a.steps <= |ms| then a.steps else |ms|;
    RenamesAreRenames(a.order);
    if k <= |rs| {
      assert ms[..k] == rs[..k];
      DoomedInPhaseOne(m, d, rs[..k]);
    } else {
      DoomedInPhaseOne(m, d, rs);
      DoomedFails(m, d, a.order);
      DoAllPrefix(m, Start(d), rs, [Commit]);
      RecordLast(m, Start(d), rs);
      assert ms[..k] == if k == |rs| + 1 then rs + [Commit] else rs + [Commit, Record];
    }
  }

  /** However often it is started, the migration of such a world never gets through. */
  lemma {:induction false} NeverGetsThrough(m: Legacy, d: Disk, tries: seq<Attempt>, order: seq<string>)
    requires Doomed(m, d) && PossibleTries(m, d, tries) && QueryOrder(m, AfterTries(m, d, tries), order)
    ensures Finish(m, AfterTries(m, d, tries), order).failed
    decreases |tries|
  {
    if tries == [] {
      DoomedFails(m, d, order);
    } else {
      DoomedStays(m, d, tries[0]);
      NeverGetsThrough(m, Try(m, d, tries[0]), tries[1..], order);
    }
  }

  lemma FailureDiverges(m: Legacy, d: Disk, order: seq<string>)
    requires QueryOrder(m, d, order) && Finish(m, d, order).failed
    ensures !Converges(m, d)
  {
    assert PossibleTries(m, d, []) && AfterTries(m, d, []) == d;
  }

  /** One stop after k micro-steps, and two ends that differ. */
  lemma StopDiverges(m: Legacy, d: Disk, direct: seq<string>, k: nat, again: seq<string>)
    requires QueryOrder(m, d, direct) && QueryOrder(m, Try(m, d, Attempt(direct, k)), again)
    requires !Finish(m, Try(m, d, Attempt(direct, k)), again).failed ==>
      Finish(m, Try(m, d, Attempt(direct, k)), again).disk != Finish(m, d, direct).disk
    ensures !Converges(m, d)
  {
    var a := Attempt(direct, k);
    var v := Try(m, d, a);
    assert PossibleTries(m, v, []) && AfterTries(m, v, []) == v;
    assert [a][1..] == [];
    assert PossibleTries(m, d, [a]) && AfterTries(m, d, [a]) == v;
  }

  /** A double prefix: stopped between commit and record, the next start strips a second time. */
  lemma DoublePrefixDiverges(m: Legacy, d: Disk)
    requires Lawful(m) && Ordinary(m, d) && REGISTRY in d && m.tables(d[REGISTRY]).Some?
    requires !NoDoublePrefix(m.tables(d[REGISTRY]).value)
    ensures !Converges(m, d)
  {
    var t := m.tables(d[REGISTRY]).value;
    var direct := SomeOrder(NamesIn(m, d));
    FinishIs(m, d, direct);
    CommitOrdinary(m, d, direct);
    if Finish(m, d, direct).failed {
      FailureDiverges(m, d, direct);
    } else {
      var k := |Renames(direct)| + 1;
      var v := Try(m, d, Attempt(direct, k));
      assert Program(m, d, direct)[..k] == Renames(direct) + [Commit];
      var again := SomeOrder(NamesIn(m, v));
      FinishIs(m, v, again);
      CommitOrdinary(m, v, again);
      RewriteTwice(t);
      StopDiverges(m, d, direct, k, again);
    }
  }

  /** With single prefixes, no rename makes a D-store, and renaming it takes it away. */
  lemma {:induction false} StoreGone(m: Legacy, p: Proc, ms: seq<Micro>, names: set<string>)
    requires !p.failed && SinglePrefixes(names) && OnlyRenames(ms, names)
    ensures var q := DoAll(m, p, ms);
      && !q.failed
      && (LANDS_ON_STORE !in p.disk || Rename("D-store", Main) in ms ==> LANDS_ON_STORE !in q.disk)
      && (LANDS_ON_STORE !in p.disk && p.storeOpen ==> q.storeOpen)
  {
    LandingNames();
    if ms != [] {
      var init, s := ms[..|ms| - 1], ms[|ms| - 1];
      StoreGone(m, p, init, names);
      assert ms == init + [s];
      if Prefixed(s.name) {
        StripTwice(s.name);
        if Strip(s.name) == "store" {
          StripIs(s.name, "store");
        }
      }
    }
  }

  /** The first start puts D-store.db in the place of store.db and records on a file that has no
      name any more; stopped after its renames, the next start records in the new store.db. */
  lemma StoreDiverges(m: Legacy, d: Disk)
    requires Lawful(m) && Ordinary(m, d) && REGISTRY in d && m.tables(d[REGISTRY]).Some?
    requires var t := m.tables(d[REGISTRY]).value; NoDoublePrefix(t) && "D-store" in t.names.Values
    requires LANDS_ON_STORE in d
    ensures !Converges(m, d)
  {
    var t := m.tables(d[REGISTRY]).value;
    var direct := SomeOrder(NamesIn(m, d));
    if Finish(m, d, direct).failed {
      FailureDiverges(m, d, direct);
    } else {
      var k := |Renames(direct)|;
      var v := Try(m, d, Attempt(direct, k));
      StoreLost(m, d, direct);
      AfterLanding(m, d, t, direct);
      var again := SomeOrder(NamesIn(m, v));
      RecordedAgain(m, v, again);
      StopDiverges(m, d, direct, k, again);
    }
  }

  lemma StoreLost(m: Legacy, d: Disk, order: seq<string>)
    requires Lawful(m) && Ordinary(m, d) && REGISTRY in d && LANDS_ON_STORE in d && "D-store" in order
    ensures !Finish(m, d, order).failed ==> !Recorded(m, Finish(m, d, order).disk)
  {
    RenamesAreRenames(order);
    RenamesCover(order, "D-store", Main);
    StoreHit(m, Start(d), Renames(order));
    CommitOrdinary(m, d, order);
    FinishIs(m, d, order);
  }

  lemma {:induction false} AfterLanding(m: Legacy, d: Disk, t: Tables, order: seq<string>)
    requires Lawful(m) && Ordinary(m, d) && REGISTRY in d && m.tables(d[REGISTRY]) == Some(t) && NoDoublePrefix(t)
    requires QueryOrder(m, d, order) && "D-store" in order && !Finish(m, d, order).failed
    ensures var v := Try(m, d, Attempt(order, |Renames(order)|));
      && Ordinary(m, v) && REGISTRY in v && m.tables(v[REGISTRY]) == Some(t) && LANDS_ON_STORE !in v
  {
    var rs := Renames(order);
    assert Program(m, d, order)[..|rs|] == rs;
    PrefixedNamesSingle(t);
    RenamesNameOnly(order, PrefixedNames(t));
    RenamesCover(order, "D-store", Main);
    StoreGone(m, Start(d), rs, PrefixedNames(t));
    CommitOrdinary(m, d, order);
    FinishIs(m, d, order);
  }

  lemma RecordedAgain(m: Legacy, v: Disk, order: seq<string>)
    requires Lawful(m) && Ordinary(m, v) && REGISTRY in v && m.tables(v[REGISTRY]).Some? && LANDS_ON_STORE !in v
    requires NoDoublePrefix(m.tables(v[REGISTRY]).value) && QueryOrder(m, v, order)
    ensures !Finish(m, v, order).failed ==> Recorded(m, Finish(m, v, order).disk)
  {
    var t := m.tables(v[REGISTRY]).value;
    PrefixedNamesSingle(t);
    RenamesNameOnly(order, PrefixedNames(t));
    StoreGone(m, Start(v), Renames(order), PrefixedNames(t));
    CommitOrdinary(m, v, order);
    FinishIs(m, v, order);
  }

  lemma RestartableConverges(m: Legacy, d: Disk)
    requires Lawful(m) && NamesAllowed(m, d) && Restartable(m, d)
    ensures Converges(m, d)
  {
    forall tries, order, direct |
      PossibleTries(m, d, tries) && QueryOrder(m, AfterTries(m, d, tries), order) && QueryOrder(m, d, direct)
      ensures !Finish(m, AfterTries(m, d, tries), order).failed
      ensures Finish(m, AfterTries(m, d, tries), order).disk == Finish(m, d, direct).disk
    {
      CrashConvergence(m, d, tries, order, direct);
    }
  }

  /** Where no database looks like the registry, the migration can be stopped and restarted at will
      exactly when it is done, there is nothing to migrate, or the tables are safe. */
  lemma ConvergesIff(m: Legacy, d: Disk)
    requires Lawful(m) && NamesAllowed(m, d)
    requires Recorded(m, d) || REGISTRY !in d || Ordinary(m, d)
    ensures Converges(m, d) <==> Restartable(m, d)
  {
    if Restartable(m, d) {
      RestartableConverges(m, d);
    } else {
      UnsafeDiverges(m, d);
    }
  }

  lemma UnsafeDiverges(m: Legacy, d: Disk)
    requires Lawful(m) && NamesAllowed(m, d) && Ordinary(m, d) && REGISTRY in d && !Restartable(m, d)
    ensures !Converges(m, d)
  {
    if Doomed(m, d) {
      var order := SomeOrder(NamesIn(m, d));
      DoomedFails(m, d, order);
      FailureDiverges(m, d, order);
    } else if !NoDoublePrefix(m.tables(d[REGISTRY]).value) {
      DoublePrefixDiverges(m, d);
    } else {
      OnlyStoreLeft(m, d);
      StoreDiverges(m, d);
    }
  }

  lemma UnsafeKinds(m: Legacy, t: Tables, files: set<DbFile>)
    requires NoDoublePrefix(t) && !Safe(m, t, files) && (m.unique ==> Distinct(t.names))
    ensures NameTaken(m, t) || !KeepsOff(files, PrefixedNames(t))
  {
  }

  lemma OnlyStoreLeft(m: Legacy, d: Disk)
    requires Lawful(m) && NamesAllowed(m, d) && Ordinary(m, d) && REGISTRY in d && !Restartable(m, d)
    requires !Doomed(m, d) && NoDoublePrefix(m.tables(d[REGISTRY]).value)
    ensures "D-store" in m.tables(d[REGISTRY]).value.names.Values && LANDS_ON_STORE in d
  {
    var t := m.tables(d[REGISTRY]).value;
    LandingNames();
    UnsafeKinds(m, t, d.Keys);
    var n :| n in PrefixedNames(t) && DbFile(Strip(n), Main) in {REGISTRY, STORE} && DbFile(n, Main) in d;
    StripIs(n, Strip(n));
  }

  /** Whatever the databases contain: for tables t and a set of files, every disk of these files
      converges exactly when no stored name has a second prefix under the one that is stripped, no
      database with a file has a name that strips to "registry" or "store", and the stripped names
      are distinct where they must be. */
  lemma ConvergesIffSafe(m: Legacy, t: Tables, files: set<DbFile>)
    requires Lawful(m) && REGISTRY in files && (m.unique ==> Distinct(t.names))
    ensures (forall d: Disk ::
        d.Keys == files && m.tables(d[REGISTRY]) == Some(t) && !Recorded(m, d) ==> Converges(m, d))
      <==> Safe(m, t, files)
  {
    if Safe(m, t, files) {
      forall d: Disk | d.Keys == files && m.tables(d[REGISTRY]) == Some(t) && !Recorded(m, d) ensures Converges(m, d) {
        RestartableConverges(m, d);
      }
    } else {
      var d := map f | f in files :: if f == REGISTRY then m.save([], t) else [];
      assert d.Keys == files && Ordinary(m, d) && m.tables(d[REGISTRY]) == Some(t);
      ConvergesIff(m, d);
    }
  }

  // ---- Two inputs -----------------------------------------------------------------------

  function OnlyNames(names: map<string, string>): Tables
  {
    Tables(names, map[], map[], map[])
  }

  /** A database named D-registry: its file takes the place of registry.db, and no start gets
      through again. */
  lemma {:induction false} RegistryIsOverwritten(m: Legacy, data: Bytes, tries: seq<Attempt>, order: seq<string>)
    requires Lawful(m) && m.tables(data).None? && !m.recorded(data)
    requires var d := map[REGISTRY := m.save([], OnlyNames(map["1" := "D-registry"])), LANDS_ON_REGISTRY := data];
      PossibleTries(m, d, tries) && QueryOrder(m, AfterTries(m, d, tries), order)
    ensures var t, d := OnlyNames(map["1" := "D-registry"]),
                        map[REGISTRY := m.save([], OnlyNames(map["1" := "D-registry"])), LANDS_ON_REGISTRY := data];
      NoDoublePrefix(t) && Finish(m, AfterTries(m, d, tries), order).failed
  {
    var t := OnlyNames(map["1" := "D-registry"]);
    var d := map[REGISTRY := m.save([], t), LANDS_ON_REGISTRY := data];
    assert t.names["1"] == "D-registry" && "D-registry"[2] == 'r';
    assert REGISTRY != LANDS_ON_REGISTRY;
    NeverGetsThrough(m, d, tries, order);
  }

  lemma TakenName(m: Legacy)
    requires m.unique
    ensures var t := OnlyNames(map["1" := "D-x", "2" := "x"]); NoDoublePrefix(t) && NameTaken(m, t)
  {
    var names := map["1" := "D-x", "2" := "x"];
    assert names["1"] == "D-x" && names["2"] == "x" && "D-x"[2] == 'x' && "x"[0] == 'x';
    assert Strip("D-x") == "x" && Strip("x") == "x";
    var end := StripColumn(names, Strip);
    assert end["1"] == end["2"];
    assert SingleNames(names) && Distinct(names) && !Distinct(end);
  }

  /** Databases named D-x and x: where names are UNIQUE the transaction fails, and so does every
      start. */
  lemma {:induction false} NameIsTaken(m: Legacy, tries: seq<Attempt>, order: seq<string>)
    requires Lawful(m) && m.unique
    requires var d := map[REGISTRY := m.save([], OnlyNames(map["1" := "D-x", "2" := "x"]))];
      PossibleTries(m, d, tries) && QueryOrder(m, AfterTries(m, d, tries), order)
    ensures var t, d := OnlyNames(map["1" := "D-x", "2" := "x"]),
                        map[REGISTRY := m.save([], OnlyNames(map["1" := "D-x", "2" := "x"]))];
      NoDoublePrefix(t) && Finish(m, AfterTries(m, d, tries), order).failed
  {
    TakenName(m);
    var t := OnlyNames(map["1" := "D-x", "2" := "x"]);
    var d := map[REGISTRY := m.save([], t)];
    assert Doomed(m, d);
    NeverGetsThrough(m, d, tries, order);
  }

  // ---- No database lost -----------------------------------------------------------------

  /** Where the file f ends up. */
  ghost function Renamed(p: set<string>, f: DbFile): DbFile
  {
    if f.slug in p then DbFile(Strip(f.slug), f.suffix) else f
  }

  /** Every file's contents survive under its new name exactly when no renamed file lands on an
      existing one with other contents. */
  lemma NothingLostIffNoClash(d: Disk, p: set<string>)
    requires SinglePrefixes(p)
    ensures (forall f :: f in d ==> Final(d, p, Renamed(p, f)) == Some(d[f])) <==>
      (forall n, suffix :: n in p && DbFile(n, suffix) in d && DbFile(Strip(n), suffix) in d ==>
         d[DbFile(n, suffix)] == d[DbFile(Strip(n), suffix)])
  {
    forall n | n in p ensures Strip(n) !in p && "D-" + Strip(n) == n {
      StripTwice(n);
      assert n == "D-" + Strip(n);
    }
    if forall f :: f in d ==> Final(d, p, Renamed(p, f)) == Some(d[f]) {
      forall n, suffix | n in p && DbFile(n, suffix) in d && DbFile(Strip(n), suffix) in d
        ensures d[DbFile(n, suffix)] == d[DbFile(Strip(n), suffix)]
      {
        assert Renamed(p, DbFile(Strip(n), suffix)) == DbFile(Strip(n), suffix);
      }
    } else {
      var f :| f in d && Final(d, p, Renamed(p, f)) != Some(d[f]);
      var n := "D-" + f.slug;
      assert f.slug !in p && Strip(n) == f.slug;
    }
  }
}
