/** The registry in its own file: the databases table lives in store.db of the same data directory
    whose other <slug>.db files are the databases (server/db/registry.go OpenRegistry, pool.go Get).
    Lifecycle holds the table apart from the files; here it is read from that file. The two agree
    exactly as long as no call moves, overwrites or removes the files of the slug "store". */
module RegistryFile {
  import opened Prelude
  import opened DbFiles
  import opened Lifecycle

  const STORE: string := "store"
  const HOME: DbFile := DbFile(STORE, Main)

  /** How the table lies in the file: reading it, and writing it over what the file held. */
  datatype Codec = Codec(rows: Bytes -> seq<Row>, save: (Option<Bytes>, seq<Row>) -> Bytes)

  /** An empty file is an empty table, and what is saved is what is read. */
  ghost predicate Faithful(c: Codec)
  {
    c.rows([]) == [] && forall was, rows :: c.rows(c.save(was, rows)) == rows
  }

  datatype Dir = Dir(disk: Disk, conns: set<string>)

  /** The table; a missing file is an empty one. */
  function Rows(c: Codec, d: Dir): seq<Row>
  {
    if HOME in d.disk then c.rows(d.disk[HOME]) else []
  }

  /** A statement that changes no row writes nothing. */
  function Save(c: Codec, d: Dir, rows: seq<Row>): Dir
  {
    if rows == Rows(c, d) then d else d.(disk := d.disk[HOME := c.save(At(d.disk, HOME), rows)])
  }

  function ChangeStored(c: Codec, d: Dir, slug: string, change: Change): (Dir, bool)
  {
    var updated := Update(Rows(c, d), slug, change);
    if updated.None? then (d, false) else (Save(c, d, updated.value), true)
  }

  /** The directory after a call, and whether it reported success: files and row in the order of
      the code, the table read where it is then. */
  function Act(c: Codec, d: Dir, op: Op): (Dir, bool)
  {
    match op
    case Insert(row) =>
      if Unique(Rows(c, d) + [row]) then (Save(c, d, Rows(c, d) + [row]), true) else (d, false)
    case Status(slug, status) => ChangeStored(c, d, slug, Change.SetStatus(status))
    case Resize(slug, size) => ChangeStored(c, d, slug, SetSize(size))
    case SoftDelete(slug, epoch, at) =>
      var newSlug := Archived(slug, epoch);
      ChangeStored(c, ReadIn(d, op), slug, MarkDeleted(newSlug, at))
    case Restore(slug) =>
      var to := Restorable(Rows(c, d), slug);
      if to.None? then (d, false)
      else ChangeStored(c, d.(disk := MoveDb(d.disk, slug, to.value)), slug, MarkRestored(to.value))
    case HardDelete(slug) =>
      if !Removable(Rows(c, d), slug) then (d, false)
      else
        var emptied := d.(disk := RemoveDb(d.disk, slug));
        (Save(c, emptied, Without(Rows(c, emptied), slug)), true)
    case Open(slug) =>
      var file := DbFile(slug, Main);
      (Dir(if slug in d.conns || file in d.disk then d.disk else d.disk[file := []], d.conns + {slug}), true)
    case Write(slug, suffix, data) => (d.(disk := d.disk[DbFile(slug, suffix) := data]), true)
    case Reset(slug) => (Dir(RemoveDb(d.disk, slug), d.conns - {slug}), true)
  }

  /** Where a restore would move the database, if its checks pass. */
  function Restorable(rows: seq<Row>, slug: string): Option<string>
  {
    var rec := Find(rows, slug);
    if rec.Some? && rec.value.status == "deleted" then rec.value.originalSlug else None
  }

  predicate Removable(rows: seq<Row>, slug: string)
  {
    var rec := Find(rows, slug);
    rec.Some? && rec.value.status == "deleted"
  }

  /** The directory in which a call looks up its row: a soft delete moves the files before. */
  function ReadIn(d: Dir, op: Op): Dir
  {
    match op
    case SoftDelete(slug, epoch, _) => Dir(MoveDb(d.disk, slug, Archived(slug, epoch)), d.conns - {slug})
    case _ => d
  }

  /** The slugs whose files the call moves, overwrites or removes. */
  function Aim(c: Codec, d: Dir, op: Op): set<string>
  {
    match op
    case SoftDelete(slug, epoch, _) => {slug, Archived(slug, epoch)}
    case Restore(slug) =>
      var to := Restorable(Rows(c, d), slug);
      if to.None? || to.value == slug then {} else {slug, to.value}
    case HardDelete(slug) => if Removable(Rows(c, d), slug) then {slug} else {}
    case Write(slug, suffix, _) => if suffix == Main then {slug} else {}
    case Reset(slug) => {slug}
    case _ => {}
  }

  /** The call gets at the registry's own file. */
  predicate Reaches(c: Codec, d: Dir, op: Op)
  {
    STORE in Aim(c, d, op)
  }

  // ---- Agreement with the table apart ---------------------------------------------------

  /** The directory as Lifecycle sees it: the table, and all files but its own. */
  function View(c: Codec, d: Dir): Reg
  {
    Reg(Rows(c, d), d.disk - {HOME}, d.conns)
  }

  function Hide(s: Reg): Reg
  {
    s.(disk := s.disk - {HOME})
  }

  lemma SaveSeen(c: Codec, d: Dir, rows: seq<Row>)
    requires Faithful(c)
    ensures View(c, Save(c, d, rows)) == View(c, d).(rows := rows)
  {
    assert d.disk[HOME := c.save(At(d.disk, HOME), rows)] - {HOME} == d.disk - {HOME};
  }

  lemma ChangeSeen(c: Codec, d: Dir, slug: string, change: Change)
    requires Faithful(c)
    ensures (View(c, ChangeStored(c, d, slug, change).0), ChangeStored(c, d, slug, change).1) ==
      ChangeRow(View(c, d), slug, change)
  {
    var updated := Update(Rows(c, d), slug, change);
    if updated.Some? {
      SaveSeen(c, d, updated.value);
    }
  }

  lemma MoveHidden(d: Disk, from: string, to: string)
    requires from == to || STORE !in {from, to}
    ensures MoveDb(d, from, to) - {HOME} == MoveDb(d - {HOME}, from, to)
    ensures At(MoveDb(d, from, to), HOME) == At(d, HOME)
  {
    if from == to {
      MoveNowhere(d, from);
      MoveNowhere(d - {HOME}, from);
    } else {
      MoveDbAt(d, from, to, HOME);
      forall f ensures At(MoveDb(d, from, to) - {HOME}, f) == At(MoveDb(d - {HOME}, from, to), f) {
        MoveDbAt(d, from, to, f);
        MoveDbAt(d - {HOME}, from, to, f);
      }
      DiskExtensional(MoveDb(d, from, to) - {HOME}, MoveDb(d - {HOME}, from, to));
    }
  }

  lemma MoveNowhere(d: Disk, slug: string)
    ensures MoveDb(d, slug, slug) == d
  {
  }

  lemma RemoveHidden(d: Disk, slug: string)
    requires slug != STORE
    ensures RemoveDb(d, slug) - {HOME} == RemoveDb(d - {HOME}, slug)
    ensures At(RemoveDb(d, slug), HOME) == At(d, HOME)
  {
  }

  lemma RowOpSeen(c: Codec, d: Dir, op: Op)
    requires Faithful(c) && (op.Insert? || op.Status? || op.Resize?)
    ensures (View(c, Act(c, d, op).0), Act(c, d, op).1) == Do(View(c, d), op)
  {
    match op
    case Insert(row) => SaveSeen(c, d, Rows(c, d) + [row]);
    case Status(slug, status) => ChangeSeen(c, d, slug, Change.SetStatus(status));
    case Resize(slug, size) => ChangeSeen(c, d, slug, SetSize(size));
  }

  lemma FileOpSeen(c: Codec, d: Dir, op: Op)
    requires Faithful(c) && (op.Open? || op.Write? || op.Reset?) && !Reaches(c, d, op)
    ensures View(c, Act(c, d, op).0) == Hide(Do(View(c, d), op).0) && Act(c, d, op).1 == Do(View(c, d), op).1
  {
  }

  /** A call that keeps off the registry's file does to the directory what Lifecycle says. */
  lemma Simulates(c: Codec, d: Dir, op: Op)
    requires Faithful(c) && !Reaches(c, d, op)
    ensures View(c, Act(c, d, op).0) == Hide(Do(View(c, d), op).0)
    ensures Act(c, d, op).1 == Do(View(c, d), op).1
  {
    match op
    case SoftDelete(slug, epoch, at) => SoftDeleteSeen(c, d, slug, epoch, at);
    case Restore(slug) => RestoreSeen(c, d, slug);
    case HardDelete(slug) => HardDeleteSeen(c, d, slug);
    case _ =>
      if op.Open? || op.Write? || op.Reset? {
        FileOpSeen(c, d, op);
      } else {
        RowOpSeen(c, d, op);
        NothingHidden(c, Act(c, d, op).0);
      }
  }

  lemma ArchiveIsNoStore(slug: string, epoch: nat)
    ensures Archived(slug, epoch) != STORE && Archived(slug, epoch) != slug
  {
    assert Archived(slug, epoch)[|slug|] == '-';
    assert '-' !in STORE;
    assert |Archived(slug, epoch)| > |slug|;
  }

  /** Moving another database's files is seen, and leaves the table alone. */
  lemma MoveSeen(c: Codec, d: Dir, from: string, to: string, conns: set<string>)
    requires from == to || STORE !in {from, to}
    ensures var moved := Dir(MoveDb(d.disk, from, to), conns);
      Rows(c, moved) == Rows(c, d) && View(c, moved) == Reg(Rows(c, d), MoveDb(View(c, d).disk, from, to), conns)
  {
    MoveHidden(d.disk, from, to);
    var disk := MoveDb(d.disk, from, to);
    assert At(disk, HOME) == At(d.disk, HOME);
  }

  lemma SoftDeleteSeen(c: Codec, d: Dir, slug: string, epoch: nat, at: string)
    requires Faithful(c) && slug != STORE
    ensures var op := SoftDelete(slug, epoch, at);
      View(c, Act(c, d, op).0) == Hide(Do(View(c, d), op).0) && Act(c, d, op).1 == Do(View(c, d), op).1
  {
    var newSlug := Archived(slug, epoch);
    var moved := Dir(MoveDb(d.disk, slug, newSlug), d.conns - {slug});
    ArchiveIsNoStore(slug, epoch);
    MoveSeen(c, d, slug, newSlug, d.conns - {slug});
    ChangeSeen(c, moved, slug, MarkDeleted(newSlug, at));
    NothingHidden(c, Act(c, d, SoftDelete(slug, epoch, at)).0);
  }

  lemma NothingHidden(c: Codec, d: Dir)
    ensures Hide(View(c, d)) == View(c, d)
  {
  }

  lemma RestoreSeen(c: Codec, d: Dir, slug: string)
    requires Faithful(c) && !Reaches(c, d, Restore(slug))
    ensures View(c, Act(c, d, Restore(slug)).0) == Hide(Do(View(c, d), Restore(slug)).0)
    ensures Act(c, d, Restore(slug)).1 == Do(View(c, d), Restore(slug)).1
  {
    var to := Restorable(Rows(c, d), slug);
    NothingHidden(c, d);
    if to.Some? {
      MoveSeen(c, d, slug, to.value, d.conns);
      ChangeSeen(c, d.(disk := MoveDb(d.disk, slug, to.value)), slug, MarkRestored(to.value));
      NothingHidden(c, Act(c, d, Restore(slug)).0);
    }
  }

  lemma HardDeleteSeen(c: Codec, d: Dir, slug: string)
    requires Faithful(c) && !Reaches(c, d, HardDelete(slug))
    ensures View(c, Act(c, d, HardDelete(slug)).0) == Hide(Do(View(c, d), HardDelete(slug)).0)
    ensures Act(c, d, HardDelete(slug)).1 == Do(View(c, d), HardDelete(slug)).1
  {
    NothingHidden(c, d);
    if Removable(Rows(c, d), slug) {
      RemoveHidden(d.disk, slug);
      var emptied := d.(disk := RemoveDb(d.disk, slug));
      assert Rows(c, emptied) == Rows(c, d) by { assert At(emptied.disk, HOME) == At(d.disk, HOME); }
      SaveSeen(c, emptied, Without(Rows(c, d), slug));
      NothingHidden(c, Act(c, d, HardDelete(slug)).0);
    }
  }

  // ---- What a call leaves alone ---------------------------------------------------------

  /** Row, files and connection of a database are the same in both. */
  ghost predicate SameIn(c: Codec, a: Dir, b: Dir, slug: string)
  {
    && Find(Rows(c, a), slug) == Find(Rows(c, b), slug)
    && (forall suffix :: At(a.disk, DbFile(slug, suffix)) == At(b.disk, DbFile(slug, suffix)))
    && (slug in a.conns <==> slug in b.conns)
  }

  lemma SeenSame(c: Codec, a: Dir, b: Dir, slug: string)
    requires slug != STORE && SameDatabase(View(c, a), View(c, b), slug)
    ensures SameIn(c, a, b, slug)
  {
    forall suffix ensures At(a.disk, DbFile(slug, suffix)) == At(b.disk, DbFile(slug, suffix)) {
      assert At(View(c, a).disk, DbFile(slug, suffix)) == At(View(c, b).disk, DbFile(slug, suffix));
    }
  }

  lemma HiddenSame(a: Reg, b: Reg, slug: string)
    requires slug != STORE && SameDatabase(a, b, slug)
    ensures SameDatabase(Hide(a), b, slug)
  {
    forall suffix ensures At(Hide(a).disk, DbFile(slug, suffix)) == At(b.disk, DbFile(slug, suffix)) {
      assert At(a.disk, DbFile(slug, suffix)) == At(b.disk, DbFile(slug, suffix));
    }
  }

  /** A call that keeps off the registry's file, successful or not, changes no other database. */
  lemma OthersUntouched(c: Codec, d: Dir, op: Op, slug: string)
    requires Faithful(c) && Unique(Rows(c, d)) && !Reaches(c, d, op)
    requires slug != STORE && slug !in Touched(View(c, d), op)
    ensures SameIn(c, Act(c, d, op).0, d, slug)
  {
    Simulates(c, d, op);
    Lifecycle.OthersUntouched(View(c, d), op, slug);
    HiddenSame(Do(View(c, d), op).0, View(c, d), slug);
    SeenSame(c, Act(c, d, op).0, d, slug);
  }

  /** The calls that reach the file name the registry: "store" is among the touched slugs. */
  lemma ReachedIsTouched(c: Codec, d: Dir, op: Op)
    requires Reaches(c, d, op)
    ensures STORE in Touched(View(c, d), op)
  {
  }

  // ---- The calls that reach it ----------------------------------------------------------

  /** Longer than any slug and any owner in the table. */
  function Longest(rows: seq<Row>): string
  {
    if rows == [] then "x" else rows[0].slug + rows[0].owner + Longest(rows[1..])
  }

  lemma {:induction false} LongestIs(rows: seq<Row>, r: Row)
    requires r in rows
    ensures |r.slug| < |Longest(rows)| && |r.owner| < |Longest(rows)|
  {
    if r != rows[0] {
      assert r in rows[1..];
      LongestIs(rows[1..], r);
    } else {
      LongestNotEmpty(rows[1..]);
    }
  }

  lemma {:induction false} LongestNotEmpty(rows: seq<Row>)
    ensures Longest(rows) != ""
  {
    if rows != [] {
      LongestNotEmpty(rows[1..]);
    }
  }

  function Plain(name: string): (r: Row)
    ensures Fresh(r) && r.slug == name && r.owner == name
  {
    Row(name, name, name, None, name, "", None, "active", 0, None, "", None, None)
  }

  /** Deleted, and to be restored under the slug to. */
  function Deleted(slug: string, to: string): (r: Row)
    ensures r.slug == slug && r.owner == slug && r.status == "deleted" && r.originalSlug == Some(to)
  {
    Plain(slug).(status := "deleted", originalSlug := Some(to))
  }

  /** A directory whose registry holds these rows. */
  function Holding(c: Codec, rows: seq<Row>, disk: Disk): Dir
  {
    Dir(disk[HOME := c.save(None, rows)], {})
  }

  lemma PairIsUnique(a: Row, b: Row)
    requires a.slug != b.slug && a.id != b.id
    ensures Unique([a, b]) && Unique([b]) && Find([a, b], a.slug) == Some(a) && Find([a, b], b.slug) == Some(b)
    ensures a in [a, b] && b in [a, b]
  {
    var none: seq<Row> := [];
    assert [a, b][1..] == [b] && [b][1..] == none;
    assert Unique(none) && Find(none, a.slug).None? && FindId(none, a.id).None?;
    assert Find([b], a.slug).None? && FindId([b], a.id).None?;
  }

  /** The call loses the row: nothing of its slug or its owner is left. */
  ghost predicate Loses(c: Codec, d: Dir, op: Op, a: Row)
  {
    && !op.Insert? && a in Rows(c, d) && Find(Rows(c, d), a.slug) == Some(a) && Fresh(a)
    && a.slug != STORE && a.slug !in Touched(View(c, d), op)
    && (forall r :: r in Rows(c, Act(c, d, op).0) ==> r.slug != a.slug && r.owner != a.owner)
    && (var rec := Find(Rows(c, ReadIn(d, op)), op.slug); rec.Some? ==> rec.value.owner != a.owner)
  }

  lemma ResetLoses(c: Codec)
    requires Faithful(c)
    ensures var a := Plain("another"); Loses(c, Holding(c, [a], map[]), Reset(STORE), a) && Unique([a])
  {
    assert [Plain("another")][1..] == [];
  }

  lemma WriteLoses(c: Codec, data: Bytes)
    requires Faithful(c)
    ensures var a := Plain(STORE + Longest(c.rows(data)));
      Loses(c, Holding(c, [a], map[]), Write(STORE, Main, data), a) && Unique([a])
  {
    var a := Plain(STORE + Longest(c.rows(data)));
    LongestNotEmpty(c.rows(data));
    assert [a][1..] == [];
    forall r | r in c.rows(data) ensures r.slug != a.slug && r.owner != a.owner {
      LongestIs(c.rows(data), r);
    }
  }

  lemma NothingToChange(slug: string, change: Change)
    ensures Update([], slug, change) == Some([])
  {
  }

  lemma SoftDeleteLoses(c: Codec, epoch: nat, at: string)
    requires Faithful(c)
    ensures var a := Plain(Archived(STORE, epoch) + "x");
      Loses(c, Holding(c, [a], map[]), SoftDelete(STORE, epoch, at), a) && Unique([a])
  {
    var newSlug := Archived(STORE, epoch);
    var a := Plain(newSlug + "x");
    var d := Holding(c, [a], map[]);
    assert [a][1..] == [];
    assert |newSlug| > |STORE|;
    MoveDbAt(d.disk, STORE, newSlug, HOME);
    assert HOME !in MoveDb(d.disk, STORE, newSlug);
    NothingToChange(STORE, MarkDeleted(newSlug, at));
  }

  lemma HardDeleteLoses(c: Codec)
    requires Faithful(c)
    ensures var a, gone := Plain("another"), Deleted(STORE, "");
      var d := Holding(c, [gone, a], map[]);
      && Loses(c, d, HardDelete(STORE), a) && Unique([gone, a])
      && Aim(c, d, HardDelete(STORE)) == {STORE}
  {
    PairIsUnique(Deleted(STORE, ""), Plain("another"));
  }

  /** In the file to restore lies an empty file. */
  lemma RestoreLoses(c: Codec, slug: string, to: string)
    requires Faithful(c) && STORE in {slug, to} && slug != to
    ensures var a, gone := Plain(slug + to + "x"), Deleted(slug, to);
      var d := Holding(c, [gone, a], map[DbFile(slug, Main) := []]);
      && Loses(c, d, Restore(slug), a) && Unique([gone, a])
      && Aim(c, d, Restore(slug)) == {slug, to}
  {
    var a, gone := Plain(slug + to + "x"), Deleted(slug, to);
    var d := Holding(c, [gone, a], map[DbFile(slug, Main) := []]);
    assert |a.slug| > |slug| && |a.slug| > |to|;
    PairIsUnique(gone, a);
    assert Rows(c, d) == [gone, a];
    var moved := d.(disk := MoveDb(d.disk, slug, to));
    MoveDbAt(d.disk, slug, to, HOME);
    assert At(moved.disk, HOME) == if to == STORE then Some([]) else None;
    assert Rows(c, moved) == [];
    NothingToChange(slug, MarkRestored(to));
  }

  /** Every call that reaches the file loses somebody else's row from some directory, aiming at the
      same slugs. */
  lemma ReachingLoses(c: Codec, op: Op, somewhere: Dir) returns (d: Dir, a: Row)
    requires Faithful(c) && Reaches(c, somewhere, op)
    ensures Aim(c, d, op) == Aim(c, somewhere, op) && Unique(Rows(c, d)) && Loses(c, d, op, a)
  {
    match op
    case SoftDelete(slug, epoch, at) =>
      ArchiveIsNoStore(slug, epoch);
      a := Plain(Archived(STORE, epoch) + "x");
      d := Holding(c, [a], map[]);
      SoftDeleteLoses(c, epoch, at);
    case Restore(slug) =>
      var to := Restorable(Rows(c, somewhere), slug).value;
      a := Plain(slug + to + "x");
      d := Holding(c, [Deleted(slug, to), a], map[DbFile(slug, Main) := []]);
      RestoreLoses(c, slug, to);
    case HardDelete(slug) =>
      a := Plain("another");
      d := Holding(c, [Deleted(STORE, ""), a], map[]);
      HardDeleteLoses(c);
    case Write(slug, suffix, data) =>
      a := Plain(STORE + Longest(c.rows(data)));
      d := Holding(c, [a], map[]);
      WriteLoses(c, data);
    case Reset(slug) =>
      a := Plain("another");
      d := Holding(c, [a], map[]);
      ResetLoses(c);
  }

  lemma LostIsTouched(c: Codec, d: Dir, op: Op, a: Row)
    requires Loses(c, d, op, a)
    ensures !SameIn(c, Act(c, d, op).0, d, a.slug)
  {
    FindOk(Rows(c, Act(c, d, op).0), a.slug);
  }

  /** For a call and the slugs it aims at: it leaves every other database alone, in every directory
      and however the table is laid out in the file, exactly when "store" is not one of them. */
  lemma OthersUntouchedIff(c: Codec, op: Op, somewhere: Dir)
    requires Faithful(c)
    ensures var aim := Aim(c, somewhere, op);
      (forall d, slug ::
         Aim(c, d, op) == aim && Unique(Rows(c, d)) && slug != STORE && slug !in Touched(View(c, d), op) ==>
           SameIn(c, Act(c, d, op).0, d, slug))
      <==> STORE !in aim
  {
    var aim := Aim(c, somewhere, op);
    if STORE in aim {
      var d, a := ReachingLoses(c, op, somewhere);
      LostIsTouched(c, d, op, a);
    } else {
      forall d, slug |
        Aim(c, d, op) == aim && Unique(Rows(c, d)) && slug != STORE && slug !in Touched(View(c, d), op)
        ensures SameIn(c, Act(c, d, op).0, d, slug)
      {
        OthersUntouched(c, d, op, slug);
      }
    }
  }

  /** A database named "store" passes the check of slugs: resetting it empties the registry, and SQL
      run on it makes of the registry whatever it likes. */
  lemma StoreIsTheRegistry(c: Codec, d: Dir, rows: seq<Row>)
    requires Faithful(c)
    ensures Rows(c, Act(c, d, Reset(STORE)).0) == []
    ensures Rows(c, Act(c, d, Write(STORE, Main, c.save(At(d.disk, HOME), rows))).0) == rows
  {
  }

  // ---- Runs -----------------------------------------------------------------------------

  function RunIn(c: Codec, d: Dir, ops: seq<Op>): Dir
    decreases |ops|
  {
    if ops == [] then d else RunIn(c, Act(c, d, ops[0]).0, ops[1..])
  }

  /** No call of the run reaches the registry's file. */
  ghost predicate KeepOff(c: Codec, d: Dir, ops: seq<Op>)
    decreases |ops|
  {
    ops == [] || (!Reaches(c, d, ops[0]) && KeepOff(c, Act(c, d, ops[0]).0, ops[1..]))
  }

  /** Keys stay unique, and every deleted row keeps a slug to be restored under. */
  lemma {:induction false} InvRun(c: Codec, d: Dir, ops: seq<Op>)
    requires Faithful(c) && Inv(View(c, d)) && KeepOff(c, d, ops)
    requires forall i :: 0 <= i < |ops| ==> Permitted(ops[i])
    ensures Inv(View(c, RunIn(c, d, ops)))
    decreases |ops|
  {
    if ops != [] {
      Simulates(c, d, ops[0]);
      InvStep(View(c, d), ops[0]);
      InvRun(c, Act(c, d, ops[0]).0, ops[1..]);
    }
  }

  /** Without that condition there is no invariant: any table at all can be the result. */
  lemma InvNeedsKeepingOff(c: Codec, d: Dir)
    requires Faithful(c)
    ensures exists op :: Permitted(op) && Reaches(c, d, op) && !Inv(View(c, Act(c, d, op).0))
  {
    var twice := [Plain("a"), Plain("a")];
    var op := Write(STORE, Main, c.save(At(d.disk, HOME), twice));
    StoreIsTheRegistry(c, d, twice);
    assert twice[1..] == [Plain("a")];
    assert Permitted(op) && Reaches(c, d, op) && !Inv(View(c, Act(c, d, op).0));
  }

  /** None of the calls has anything to do with these databases, or with the registry's file. */
  ghost predicate LeavesAlone(c: Codec, d: Dir, ops: seq<Op>, slugs: set<string>)
    decreases |ops|
  {
    ops == [] ||
    (!Reaches(c, d, ops[0]) && Touched(View(c, d), ops[0]) !! slugs && LeavesAlone(c, Act(c, d, ops[0]).0, ops[1..], slugs))
  }

  lemma UniqueIn(c: Codec, d: Dir, op: Op)
    requires Faithful(c) && Unique(Rows(c, d)) && !Reaches(c, d, op)
    ensures Unique(Rows(c, Act(c, d, op).0))
  {
    Simulates(c, d, op);
    UniqueStep(View(c, d), op);
  }

  lemma {:induction false} LeftAlone(c: Codec, d: Dir, ops: seq<Op>, slugs: set<string>, slug: string)
    requires Faithful(c) && Unique(Rows(c, d)) && LeavesAlone(c, d, ops, slugs) && slug in slugs && slug != STORE
    ensures Unique(Rows(c, RunIn(c, d, ops))) && SameIn(c, RunIn(c, d, ops), d, slug)
    decreases |ops|
  {
    if ops != [] {
      UniqueIn(c, d, ops[0]);
      OthersUntouched(c, d, ops[0], slug);
      LeftAlone(c, Act(c, d, ops[0]).0, ops[1..], slugs, slug);
    }
  }
}
