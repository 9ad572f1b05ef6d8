/** The life of a database (server/db/registry.go): a row of the databases table, the three files
    it lives in, and the pool's open connection. Deleting renames row and files out of the way,
    restoring renames them back, hard deletion removes them. */
module Lifecycle {
  import opened Prelude
  import opened DbFiles
  import Decimal

  datatype Row = Row(
    id: string, name: string, slug: string, description: Option<string>, owner: string, source: string,
    instanceId: Option<string>, status: string, size: int, originalSlug: Option<string>,
    createdAt: string, updatedAt: Option<string>, deletedAt: Option<string>)

  /** rows in rowid order; conns are the names with an open connection in the pool. */
  datatype Reg = Reg(rows: seq<Row>, disk: Disk, conns: set<string>)

  /** SELECT … WHERE slug = ?. */
  function Find(rows: seq<Row>, slug: string): (r: Option<Row>)
    ensures r.Some? ==> r.value.slug == slug
  {
    if rows == [] then None
    else if rows[0].slug == slug then Some(rows[0])
    else Find(rows[1..], slug)
  }

  function FindId(rows: seq<Row>, id: string): Option<Row>
  {
    if rows == [] then None
    else if rows[0].id == id then Some(rows[0])
    else FindId(rows[1..], id)
  }

  /** The PRIMARY KEY and UNIQUE constraints of the table. */
  predicate Unique(rows: seq<Row>)
  {
    rows == [] ||
    (Find(rows[1..], rows[0].slug).None? && FindId(rows[1..], rows[0].id).None? && Unique(rows[1..]))
  }

  /** The assignments of UPDATE … SET, by column. */
  datatype Change =
    | SetStatus(status: string)
    | SetSize(size: int)
    | MarkDeleted(newSlug: string, deletedAt: string)
    | MarkRestored(slug: string)

  function Changed(r: Row, c: Change): Row
  {
    match c
    case SetStatus(status) => r.(status := status)
    case SetSize(size) => r.(size := size)
    case MarkDeleted(newSlug, at) =>
      r.(slug := newSlug, originalSlug := Some(r.slug), status := "deleted", deletedAt := Some(at))
    case MarkRestored(slug) =>
      r.(slug := slug, originalSlug := None, status := "active", deletedAt := None)
  }

  /** Every row with that slug changed. */
  function Mapped(rows: seq<Row>, slug: string, c: Change): (r: seq<Row>)
    ensures |r| == |rows|
  {
    if rows == [] then []
    else [if rows[0].slug == slug then Changed(rows[0], c) else rows[0]] + Mapped(rows[1..], slug, c)
  }

  /** UPDATE … WHERE slug = ?, refused as a whole if it would break a constraint. */
  function Update(rows: seq<Row>, slug: string, c: Change): Option<seq<Row>>
  {
    var updated := Mapped(rows, slug, c);
    if Unique(updated) then Some(updated) else None
  }

  /** DELETE … WHERE slug = ?. */
  function Without(rows: seq<Row>, slug: string): seq<Row>
  {
    if rows == [] then []
    else (if rows[0].slug == slug then [] else [rows[0]]) + Without(rows[1..], slug)
  }

  /** fmt.Sprintf("%s-%d", slug, epoch). */
  function Archived(slug: string, epoch: nat): string
  {
    slug + "-" + Decimal.Render(epoch)
  }

  datatype Op =
    | Insert(row: Row)
    | Status(slug: string, status: string)
    | Resize(slug: string, size: int)
    | SoftDelete(slug: string, epoch: nat, at: string)
    | Restore(slug: string)
    | HardDelete(slug: string)
    | Open(slug: string)                                  // Pool.Get: a new connection creates the file
    | Write(slug: string, suffix: Suffix, data: Bytes)    // SQL run by a client, or a checkpoint
    | Reset(slug: string)                                 // Pool.Remove

  /** A row as INSERT leaves it, the other columns at their defaults. */
  predicate Fresh(r: Row)
  {
    r.status == "active" && r.size == 0 && r.originalSlug == None && r.updatedAt == None && r.deletedAt == None
  }

  /** The state after a call, and whether it reported success. */
  function Do(s: Reg, op: Op): (Reg, bool)
  {
    match op
    case Insert(row) =>
      if Unique(s.rows + [row]) then (s.(rows := s.rows + [row]), true) else (s, false)
    case Status(slug, status) => ChangeRow(s, slug, Change.SetStatus(status))
    case Resize(slug, size) => ChangeRow(s, slug, SetSize(size))
    case SoftDelete(slug, epoch, at) => MoveAway(s, slug, Archived(slug, epoch), at)
    case Restore(slug) => MoveBack(s, slug)
    case HardDelete(slug) => Purge(s, slug)
    case Open(slug) =>
      var file := DbFile(slug, Main);
      (s.(conns := s.conns + {slug}, disk := if slug in s.conns || file in s.disk then s.disk else s.disk[file := []]), true)
    case Write(slug, suffix, data) => (s.(disk := s.disk[DbFile(slug, suffix) := data]), true)
    case Reset(slug) => (s.(conns := s.conns - {slug}, disk := RemoveDb(s.disk, slug)), true)
  }

  /** Files first, then the connection, then the row. */
  function MoveAway(s: Reg, slug: string, newSlug: string, at: string): (Reg, bool)
  {
    ChangeRow(s.(disk := MoveDb(s.disk, slug, newSlug), conns := s.conns - {slug}), slug, MarkDeleted(newSlug, at))
  }

  /** Refused unless the row is deleted and knows its slug; then files first, then the row. */
  function MoveBack(s: Reg, slug: string): (Reg, bool)
  {
    var rec := Find(s.rows, slug);
    if rec.None? || rec.value.status != "deleted" || rec.value.originalSlug.None? then (s, false)
    else
      var to := rec.value.originalSlug.value;
      ChangeRow(s.(disk := MoveDb(s.disk, slug, to)), slug, MarkRestored(to))
  }

  function Purge(s: Reg, slug: string): (Reg, bool)
  {
    var rec := Find(s.rows, slug);
    if rec.None? || rec.value.status != "deleted" then (s, false)
    else (s.(disk := RemoveDb(s.disk, slug), rows := Without(s.rows, slug)), true)
  }

  function ChangeRow(s: Reg, slug: string, c: Change): (Reg, bool)
  {
    var updated := Update(s.rows, slug, c);
    if updated.None? then (s, false) else (s.(rows := updated.value), true)
  }

  // ---- Tables under update --------------------------------------------------------------

  lemma {:induction false} FindOk(rows: seq<Row>, slug: string)
    ensures match Find(rows, slug)
      case None => forall r :: r in rows ==> r.slug != slug
      case Some(r) => r in rows && r.slug == slug
  {
    if rows != [] {
      FindOk(rows[1..], slug);
      assert rows == [rows[0]] + rows[1..];
    }
  }

  lemma {:induction false} FindIs(rows: seq<Row>, slug: string, r: Row)
    requires Unique(rows) && r in rows && r.slug == slug
    ensures Find(rows, slug) == Some(r)
  {
    if r != rows[0] {
      assert r in rows[1..];
      FindIs(rows[1..], slug, r);
    }
  }

  /** The slug a change leaves behind. */
  function SlugAfter(slug: string, c: Change): string
  {
    match c
    case MarkDeleted(newSlug, _) => newSlug
    case MarkRestored(to) => to
    case _ => slug
  }

  lemma {:induction false} MappedAt(rows: seq<Row>, slug: string, c: Change, i: nat)
    requires i < |rows|
    ensures Mapped(rows, slug, c)[i] == if rows[i].slug == slug then Changed(rows[i], c) else rows[i]
  {
    if i > 0 {
      MappedAt(rows[1..], slug, c, i - 1);
    }
  }

  /** With no such row the table stays as it is. */
  lemma {:induction false} MappedAbsent(rows: seq<Row>, slug: string, c: Change)
    requires Find(rows, slug).None?
    ensures Mapped(rows, slug, c) == rows
  {
    if rows != [] {
      MappedAbsent(rows[1..], slug, c);
    }
  }

  lemma {:induction false} FindIdMapped(rows: seq<Row>, slug: string, c: Change, id: string)
    ensures FindId(Mapped(rows, slug, c), id).Some? <==> FindId(rows, id).Some?
  {
    if rows != [] {
      FindIdMapped(rows[1..], slug, c, id);
    }
  }

  /** What an update leaves under every slug, unless it runs into another row. */
  lemma {:induction false} FindMapped(rows: seq<Row>, slug: string, c: Change, other: string)
    requires other == SlugAfter(slug, c) != slug ==> Find(rows, other).None?
    ensures Find(Mapped(rows, slug, c), other) ==
      if other == SlugAfter(slug, c) && Find(rows, slug).Some? then Some(Changed(Find(rows, slug).value, c))
      else if other == slug then None
      else Find(rows, other)
  {
    if rows != [] {
      FindMapped(rows[1..], slug, c, other);
    }
  }

  /** If it does run into one, that slug is taken twice. */
  lemma {:induction false} FindCollision(rows: seq<Row>, slug: string, c: Change)
    requires Find(rows, SlugAfter(slug, c)).Some? || Find(rows, slug).Some?
    ensures Find(Mapped(rows, slug, c), SlugAfter(slug, c)).Some?
  {
    if rows[0].slug != slug && rows[0].slug != SlugAfter(slug, c) {
      FindCollision(rows[1..], slug, c);
    }
  }

  /** An update is refused exactly when it would move a row onto a slug another row has. */
  lemma {:induction false} UpdateOk(rows: seq<Row>, slug: string, c: Change)
    requires Unique(rows) && Find(rows, slug).Some?
    ensures var to := Changed(Find(rows, slug).value, c).slug;
      Update(rows, slug, c).Some? <==> to == slug || Find(rows, to).None?
  {
    var head, rest, to := rows[0], rows[1..], SlugAfter(slug, c);
    assert Mapped(rows, slug, c)[1..] == Mapped(rest, slug, c);
    FindIdMapped(rest, slug, c, head.id);
    if head.slug == slug {
      MappedAbsent(rest, slug, c);
    } else {
      UpdateOk(rest, slug, c);
      if head.slug == to {
        FindCollision(rest, slug, c);
      } else {
        OtherSlugStays(rest, slug, c, head.slug);
      }
    }
  }

  lemma {:induction false} OtherSlugStays(rows: seq<Row>, slug: string, c: Change, other: string)
    requires other != slug && other != SlugAfter(slug, c)
    ensures Find(Mapped(rows, slug, c), other) == Find(rows, other)
  {
    if rows != [] {
      OtherSlugStays(rows[1..], slug, c, other);
    }
  }

  /** What a successful update leaves under every slug. */
  lemma {:induction false} FindUpdated(rows: seq<Row>, slug: string, c: Change, other: string)
    requires Unique(rows) && Update(rows, slug, c).Some?
    ensures var updated := Update(rows, slug, c).value;
      Find(updated, other) ==
        if Find(rows, slug).Some? && Changed(Find(rows, slug).value, c).slug == other
        then Some(Changed(Find(rows, slug).value, c))
        else if other == slug then None
        else Find(rows, other)
  {
    if Find(rows, slug).None? {
      MappedAbsent(rows, slug, c);
    } else {
      UpdateOk(rows, slug, c);
      FindMapped(rows, slug, c, other);
    }
  }

  lemma {:induction false} FindWithout(rows: seq<Row>, slug: string, other: string)
    ensures Find(Without(rows, slug), other) == if other == slug then None else Find(rows, other)
  {
    if rows != [] {
      FindWithout(rows[1..], slug, other);
      if rows[0].slug != slug {
        assert ([rows[0]] + Without(rows[1..], slug))[1..] == Without(rows[1..], slug);
      } else {
        assert [] + Without(rows[1..], slug) == Without(rows[1..], slug);
      }
    }
  }

  lemma {:induction false} WithoutUnique(rows: seq<Row>, slug: string)
    requires Unique(rows)
    ensures Unique(Without(rows, slug))
  {
    if rows != [] {
      var rest := Without(rows[1..], slug);
      WithoutUnique(rows[1..], slug);
      FindWithout(rows[1..], slug, rows[0].slug);
      FindIdWithout(rows[1..], slug, rows[0].id);
      if rows[0].slug != slug {
        assert ([rows[0]] + rest)[1..] == rest;
      } else {
        assert [] + rest == rest;
      }
    }
  }

  lemma {:induction false} FindIdWithout(rows: seq<Row>, slug: string, id: string)
    ensures FindId(Without(rows, slug), id).Some? ==> FindId(rows, id).Some?
  {
    if rows != [] {
      var rest := Without(rows[1..], slug);
      FindIdWithout(rows[1..], slug, id);
      if rows[0].slug != slug {
        assert ([rows[0]] + rest)[1..] == rest;
      } else {
        assert [] + rest == rest;
      }
    }
  }

  lemma {:induction false} WithoutIn(rows: seq<Row>, slug: string)
    ensures forall r :: r in Without(rows, slug) ==> r in rows
  {
    if rows != [] {
      WithoutIn(rows[1..], slug);
    }
  }

  lemma {:induction false} FindAppended(rows: seq<Row>, row: Row, other: string)
    ensures Find(rows + [row], other) ==
      if Find(rows, other).Some? then Find(rows, other) else if row.slug == other then Some(row) else None
  {
    if rows == [] {
      assert [] + [row] == [row] && [row][1..] == [];
    } else {
      FindAppended(rows[1..], row, other);
      assert (rows + [row])[1..] == rows[1..] + [row];
    }
  }

  lemma {:induction false} FindIdAppended(rows: seq<Row>, row: Row, id: string)
    ensures FindId(rows + [row], id).Some? <==> FindId(rows, id).Some? || row.id == id
  {
    if rows == [] {
      assert [] + [row] == [row] && [row][1..] == [];
    } else {
      FindIdAppended(rows[1..], row, id);
      assert (rows + [row])[1..] == rows[1..] + [row];
    }
  }

  /** An INSERT is accepted exactly when neither its id nor its slug is taken. */
  lemma {:induction false} InsertOk(rows: seq<Row>, row: Row)
    requires Unique(rows)
    ensures Unique(rows + [row]) <==> Find(rows, row.slug).None? && FindId(rows, row.id).None?
  {
    if rows == [] {
      assert [] + [row] == [row] && [row][1..] == [];
    } else {
      InsertOk(rows[1..], row);
      FindAppended(rows[1..], row, rows[0].slug);
      FindIdAppended(rows[1..], row, rows[0].id);
      assert (rows + [row])[1..] == rows[1..] + [row];
    }
  }

  // ---- Invariants of every run ----------------------------------------------------------

  predicate Recoverable(r: Row)
  {
    r.status == "deleted" ==> r.originalSlug.Some?
  }

  /** Keys stay unique, and a deleted row always knows the slug it had. */
  ghost predicate Inv(s: Reg)
  {
    Unique(s.rows) && forall r :: r in s.rows ==> Recoverable(r)
  }

  /** Inserted rows are fresh, and PATCH only sets the two statuses it accepts. */
  predicate Permitted(op: Op)
  {
    match op
    case Insert(row) => Fresh(row)
    case Status(_, status) => status == "active" || status == "inactive"
    case _ => true
  }

  lemma ChangeInv(s: Reg, slug: string, c: Change)
    requires Inv(s) && (c.SetStatus? ==> c.status != "deleted")
    ensures Inv(ChangeRow(s, slug, c).0)
  {
    var updated := Mapped(s.rows, slug, c);
    forall r | r in updated ensures Recoverable(r) {
      var i :| 0 <= i < |updated| && updated[i] == r;
      MappedAt(s.rows, slug, c, i);
      assert Recoverable(s.rows[i]);
    }
  }

  lemma InvStep(s: Reg, op: Op)
    requires Inv(s) && Permitted(op)
    ensures Inv(Do(s, op).0)
  {
    match op
    case Status(slug, status) => ChangeInv(s, slug, Change.SetStatus(status));
    case Resize(slug, size) => ChangeInv(s, slug, SetSize(size));
    case SoftDelete(slug, epoch, at) =>
      var newSlug := Archived(slug, epoch);
      ChangeInv(s.(disk := MoveDb(s.disk, slug, newSlug), conns := s.conns - {slug}), slug, MarkDeleted(newSlug, at));
    case Restore(slug) =>
      var rec := Find(s.rows, slug);
      if rec.Some? && rec.value.originalSlug.Some? {
        var to := rec.value.originalSlug.value;
        ChangeInv(s.(disk := MoveDb(s.disk, slug, to)), slug, MarkRestored(to));
      }
    case HardDelete(slug) =>
      WithoutUnique(s.rows, slug);
      WithoutIn(s.rows, slug);
    case _ =>
  }

  // ---- What a call can touch ------------------------------------------------------------

  /** The slugs whose row, files or connection a call may change. */
  function Touched(s: Reg, op: Op): set<string>
  {
    match op
    case Insert(row) => {row.slug}
    case SoftDelete(slug, epoch, _) => {slug, Archived(slug, epoch)}
    case Restore(slug) =>
      var rec := Find(s.rows, slug);
      {slug} + if rec.Some? && rec.value.originalSlug.Some? then {rec.value.originalSlug.value} else {}
    case _ => {op.slug}
  }

  /** Everything there is to a database. */
  ghost predicate SameDatabase(a: Reg, b: Reg, slug: string)
  {
    && Find(a.rows, slug) == Find(b.rows, slug)
    && (forall suffix :: At(a.disk, DbFile(slug, suffix)) == At(b.disk, DbFile(slug, suffix)))
    && (slug in a.conns <==> slug in b.conns)
  }

  /** No call, successful or not, changes any other database. */
  lemma OthersUntouched(s: Reg, op: Op, slug: string)
    requires Unique(s.rows) && slug !in Touched(s, op)
    ensures SameDatabase(Do(s, op).0, s, slug)
  {
    OtherRows(s, op, slug);
    OtherFiles(s, op, slug);
  }

  lemma {:induction false} OtherRows(s: Reg, op: Op, slug: string)
    requires Unique(s.rows) && slug !in Touched(s, op)
    ensures Find(Do(s, op).0.rows, slug) == Find(s.rows, slug)
  {
    match op
    case Insert(row) => FindAppended(s.rows, row, slug);
    case Status(target, status) => ChangeOther(s.rows, target, Change.SetStatus(status), slug);
    case Resize(target, size) => ChangeOther(s.rows, target, SetSize(size), slug);
    case SoftDelete(target, epoch, at) =>
      ChangeOther(s.rows, target, MarkDeleted(Archived(target, epoch), at), slug);
    case Restore(target) =>
      var rec := Find(s.rows, target);
      if rec.Some? && rec.value.originalSlug.Some? {
        ChangeOther(s.rows, target, MarkRestored(rec.value.originalSlug.value), slug);
      }
    case HardDelete(target) => FindWithout(s.rows, target, slug);
    case _ =>
  }

  lemma {:induction false} ChangeOther(rows: seq<Row>, target: string, c: Change, slug: string)
    requires Unique(rows) && slug != target
    requires Find(rows, target).Some? ==> Changed(Find(rows, target).value, c).slug != slug
    ensures Update(rows, target, c).Some? ==> Find(Update(rows, target, c).value, slug) == Find(rows, slug)
  {
    if Update(rows, target, c).Some? {
      FindUpdated(rows, target, c, slug);
    }
  }

  lemma MoveOthers(d: Disk, from: string, to: string, slug: string, suffix: Suffix)
    requires slug != from && slug != to
    ensures At(MoveDb(d, from, to), DbFile(slug, suffix)) == At(d, DbFile(slug, suffix))
  {
  }

  lemma OtherFiles(s: Reg, op: Op, slug: string)
    requires slug !in Touched(s, op)
    ensures forall suffix :: At(Do(s, op).0.disk, DbFile(slug, suffix)) == At(s.disk, DbFile(slug, suffix))
    ensures slug in Do(s, op).0.conns <==> slug in s.conns
  {
    forall suffix ensures At(Do(s, op).0.disk, DbFile(slug, suffix)) == At(s.disk, DbFile(slug, suffix)) {
      match op
      case SoftDelete(target, epoch, _) => MoveOthers(s.disk, target, Archived(target, epoch), slug, suffix);
      case Restore(target) =>
        var rec := Find(s.rows, target);
        if rec.Some? && rec.value.originalSlug.Some? {
          MoveOthers(s.disk, target, rec.value.originalSlug.value, slug, suffix);
        }
      case _ =>
    }
  }

  lemma UniqueStep(s: Reg, op: Op)
    requires Unique(s.rows)
    ensures Unique(Do(s, op).0.rows)
  {
    if op.HardDelete? {
      WithoutUnique(s.rows, op.slug);
    }
  }

  // ---- Soft delete and restore ----------------------------------------------------------

  /** The decimal epoch holds no hyphen, so no two deletions share an archive name unless they are
      of the same slug in the same second. */
  lemma ArchivedInjective(slug: string, epoch: nat, slug': string, epoch': nat)
    requires Archived(slug, epoch) == Archived(slug', epoch')
    ensures slug == slug' && epoch == epoch'
  {
    var a, b := Archived(slug, epoch), Archived(slug', epoch');
    Decimal.RenderDigits(epoch);
    Decimal.RenderDigits(epoch');
    LastHyphen(slug, Decimal.Render(epoch), slug', Decimal.Render(epoch'));
    assert slug == a[..|slug|] == b[..|slug'|] == slug';
    assert Decimal.Render(epoch) == a[|slug| + 1..] == b[|slug'| + 1..] == Decimal.Render(epoch');
    Decimal.RenderInjective(epoch, epoch');
  }

  lemma LastHyphen(a: string, x: string, b: string, y: string)
    requires a + "-" + x == b + "-" + y
    requires forall c :: c in x ==> Decimal.IsDigit(c)
    requires forall c :: c in y ==> Decimal.IsDigit(c)
    ensures |a| == |b|
  {
    var s, t := a + "-" + x, b + "-" + y;
    assert s[|a|] == '-' && t[|b|] == '-' && s == t;
    assert forall i :: |a| < i < |s| ==> s[i] == x[i - |a| - 1] && Decimal.IsDigit(s[i]);
    assert forall i :: |b| < i < |t| ==> t[i] == y[i - |b| - 1] && Decimal.IsDigit(t[i]);
  }

  /** Moving a row to another slug goes through exactly when that slug is free. */
  lemma {:induction false} RowMoves(rows: seq<Row>, slug: string, c: Change, to: string)
    requires Unique(rows) && Find(rows, slug).Some? && to != slug && Changed(Find(rows, slug).value, c).slug == to
    ensures var after := Update(rows, slug, c);
      && (after.Some? <==> Find(rows, to).None?)
      && (after.Some? ==>
            Find(after.value, to) == Some(Changed(Find(rows, slug).value, c)) && Find(after.value, slug) == None)
  {
    UpdateOk(rows, slug, c);
    if Update(rows, slug, c).Some? {
      FindUpdated(rows, slug, c, slug);
      FindUpdated(rows, slug, c, to);
    }
  }

  /** Between the two disks the file moved from one slug to the other. */
  ghost predicate ArchivedFiles(was: Disk, now: Disk, from: string, to: string, suffix: Suffix)
  {
    && At(now, DbFile(from, suffix)) == None
    && At(now, DbFile(to, suffix)) ==
       if DbFile(from, suffix) in was then At(was, DbFile(from, suffix)) else At(was, DbFile(to, suffix))
  }

  lemma MoveArchives(d: Disk, from: string, to: string)
    requires from != to
    ensures forall suffix :: ArchivedFiles(d, MoveDb(d, from, to), from, to, suffix)
  {
    forall suffix ensures ArchivedFiles(d, MoveDb(d, from, to), from, to, suffix) {
      MoveDbAt(d, from, to, DbFile(from, suffix));
      MoveDbAt(d, from, to, DbFile(to, suffix));
    }
  }

  /** A soft delete goes through exactly when the archive name is unused by another row. If it is
      used, the call fails with the row in place and the files already gone from under it. */
  lemma {:induction false} SoftDeleteOutcome(s: Reg, slug: string, epoch: nat, at: string)
    requires Unique(s.rows) && Find(s.rows, slug).Some?
    ensures var newSlug, (t, ok) := Archived(slug, epoch), Do(s, SoftDelete(slug, epoch, at));
      && (ok <==> Find(s.rows, newSlug).None?)
      && (ok ==> Find(t.rows, newSlug) == Some(Changed(Find(s.rows, slug).value, MarkDeleted(newSlug, at))))
      && (ok ==> Find(t.rows, slug) == None)
      && (!ok ==> t.rows == s.rows)
      && slug !in t.conns
      && forall suffix :: ArchivedFiles(s.disk, t.disk, slug, newSlug, suffix)
  {
    var newSlug := Archived(slug, epoch);
    assert |newSlug| > |slug|;
    SoftDeleteIs(s, slug, epoch, at);
    RowMoves(s.rows, slug, MarkDeleted(newSlug, at), newSlug);
    MoveArchives(s.disk, slug, newSlug);
  }

  /** What a restore of a deleted row does, part by part. */
  lemma {:induction false} RestoreIs(s: Reg, slug: string, to: string)
    requires Find(s.rows, slug).Some?
    requires var r := Find(s.rows, slug).value; r.status == "deleted" && r.originalSlug == Some(to)
    ensures var updated := Update(s.rows, slug, MarkRestored(to));
      Do(s, Restore(slug)) ==
        (s.(rows := updated.GetOr(s.rows), disk := MoveDb(s.disk, slug, to)), updated.Some?)
  {
  }

  /** What a soft delete does, part by part. */
  lemma SoftDeleteIs(s: Reg, slug: string, epoch: nat, at: string)
    ensures var newSlug := Archived(slug, epoch);
      var updated := Update(s.rows, slug, MarkDeleted(newSlug, at));
      Do(s, SoftDelete(slug, epoch, at)) ==
        (Reg(updated.GetOr(s.rows), MoveDb(s.disk, slug, newSlug), s.conns - {slug}), updated.Some?)
  {
  }

  /** A restore goes through exactly when no row has taken the original slug. The files move
      either way, over whatever is there. */
  lemma {:induction false} RestoreOutcome(s: Reg, slug: string, to: string)
    requires Unique(s.rows) && Find(s.rows, slug).Some? && to != slug
    requires var r := Find(s.rows, slug).value; r.status == "deleted" && r.originalSlug == Some(to)
    ensures var (t, ok) := Do(s, Restore(slug));
      && (ok <==> Find(s.rows, to).None?)
      && (ok ==> Find(t.rows, to) == Some(Changed(Find(s.rows, slug).value, MarkRestored(to))))
      && (ok ==> Find(t.rows, slug) == None)
      && (!ok ==> t.rows == s.rows)
      && forall suffix :: ArchivedFiles(s.disk, t.disk, slug, to, suffix)
  {
    RestoreIs(s, slug, to);
    RowMoves(s.rows, slug, MarkRestored(to), to);
    MoveArchives(s.disk, slug, to);
  }

  /** Done back to back, the two calls give back the very table and disk, row order included. */
  lemma {:induction false} BackToBack(s: Reg, slug: string, epoch: nat, at: string)
    requires Unique(s.rows) && Find(s.rows, slug).Some? && Find(s.rows, Archived(slug, epoch)).None?
    requires var r := Find(s.rows, slug).value; r.status == "active" && r.originalSlug == None && r.deletedAt == None
    requires forall suffix :: DbFile(Archived(slug, epoch), suffix) !in s.disk
    ensures Do(Do(s, SoftDelete(slug, epoch, at)).0, Restore(Archived(slug, epoch))) == (s.(conns := s.conns - {slug}), true)
  {
    var newSlug := Archived(slug, epoch);
    assert |newSlug| > |slug|;
    RowTrip(s.rows, slug, newSlug, at);
    MoveTrip(s, slug, newSlug, at, Mapped(s.rows, slug, MarkDeleted(newSlug, at)), s.rows);
    MovedThereAndBack(s.disk, slug, newSlug);
    TripIs(s, slug, epoch, at);
  }

  lemma TripIs(s: Reg, slug: string, epoch: nat, at: string)
    ensures var newSlug := Archived(slug, epoch);
      Do(Do(s, SoftDelete(slug, epoch, at)).0, Restore(newSlug)) == MoveBack(MoveAway(s, slug, newSlug, at).0, newSlug)
  {
  }

  /** The two updates, each accepted, cancel out. */
  lemma {:induction false} RowTrip(rows: seq<Row>, slug: string, newSlug: string, at: string)
    requires Unique(rows) && slug != newSlug && Find(rows, slug).Some? && Find(rows, newSlug).None?
    requires var r := Find(rows, slug).value; r.status == "active" && r.originalSlug == None && r.deletedAt == None
    ensures var gone := Mapped(rows, slug, MarkDeleted(newSlug, at));
      && Update(rows, slug, MarkDeleted(newSlug, at)) == Some(gone)
      && Find(gone, newSlug) == Some(Changed(Find(rows, slug).value, MarkDeleted(newSlug, at)))
      && Update(gone, newSlug, MarkRestored(slug)) == Some(rows)
  {
    RowMoves(rows, slug, MarkDeleted(newSlug, at), newSlug);
    MappedThereAndBack(rows, slug, newSlug, at);
  }

  /** With both updates accepted, the calls do what their names say. */
  lemma {:induction false} MoveTrip(s: Reg, slug: string, newSlug: string, at: string, gone: seq<Row>, back: seq<Row>)
    requires Update(s.rows, slug, MarkDeleted(newSlug, at)) == Some(gone)
    requires Update(gone, newSlug, MarkRestored(slug)) == Some(back)
    requires var rec := Find(gone, newSlug);
      rec.Some? && rec.value.status == "deleted" && rec.value.originalSlug == Some(slug)
    ensures MoveBack(MoveAway(s, slug, newSlug, at).0, newSlug) ==
      (Reg(back, MoveDb(MoveDb(s.disk, slug, newSlug), newSlug, slug), s.conns - {slug}), true)
  {
  }

  lemma MovedThereAndBack(d: Disk, slug: string, newSlug: string)
    requires slug != newSlug && forall suffix :: DbFile(newSlug, suffix) !in d
    ensures MoveDb(MoveDb(d, slug, newSlug), newSlug, slug) == d
  {
    var gone := MoveDb(d, slug, newSlug);
    forall f ensures At(MoveDb(gone, newSlug, slug), f) == At(d, f) {
      assert DbFile(newSlug, f.suffix) !in d;
      MoveDbAt(d, slug, newSlug, f);
      MoveDbAt(d, slug, newSlug, DbFile(newSlug, f.suffix));
      MoveDbAt(gone, newSlug, slug, f);
    }
    DiskExtensional(MoveDb(gone, newSlug, slug), d);
  }

  lemma {:induction false} MappedThereAndBack(rows: seq<Row>, slug: string, newSlug: string, at: string)
    requires Unique(rows) && slug != newSlug && Find(rows, slug).Some? && Find(rows, newSlug).None?
    requires var r := Find(rows, slug).value; r.status == "active" && r.originalSlug == None && r.deletedAt == None
    ensures Mapped(Mapped(rows, slug, MarkDeleted(newSlug, at)), newSlug, MarkRestored(slug)) == rows
  {
    var gone := Mapped(rows, slug, MarkDeleted(newSlug, at));
    var back := Mapped(gone, newSlug, MarkRestored(slug));
    FindOk(rows, newSlug);
    forall i | 0 <= i < |rows| ensures back[i] == rows[i] {
      MappedAt(rows, slug, MarkDeleted(newSlug, at), i);
      MappedAt(gone, newSlug, MarkRestored(slug), i);
      if rows[i].slug == slug {
        FindIs(rows, slug, rows[i]);
      }
    }
  }

  // ---- Connections left without a file --------------------------------------------------

  /** An open connection whose database file is gone. */
  ghost predicate Stranded(s: Reg, n: string)
  {
    n in s.conns && DbFile(n, Main) !in s.disk
  }

  /** A restore or a hard deletion that passes its checks, of a name with an open connection. */
  predicate PullsFile(s: Reg, op: Op)
  {
    match op
    case Restore(slug) =>
      var rec := Find(s.rows, slug);
      slug in s.conns && rec.Some? && rec.value.status == "deleted" && rec.value.originalSlug.Some?
      && rec.value.originalSlug.value != slug
    case HardDelete(slug) =>
      var rec := Find(s.rows, slug);
      slug in s.conns && rec.Some? && rec.value.status == "deleted"
    case _ => false
  }

  /** Neither call looks into the pool. A call leaves a connection without its file, where there
      was none before, exactly when it is such a restore or hard deletion. */
  lemma StrandsIff(s: Reg, op: Op)
    requires forall n :: !Stranded(s, n)
    ensures (exists n :: Stranded(Do(s, op).0, n)) <==> PullsFile(s, op)
  {
    var t := Do(s, op).0;
    if PullsFile(s, op) {
      assert !Stranded(s, op.slug);
      PulledIsStranded(s, op);
      assert Stranded(t, op.slug);
    } else {
      forall n ensures !Stranded(t, n) {
        assert !Stranded(s, n);
        NotPulledNotStranded(s, op, n);
      }
    }
  }

  lemma PulledIsStranded(s: Reg, op: Op)
    requires PullsFile(s, op)
    ensures Stranded(Do(s, op).0, op.slug)
  {
    if op.Restore? {
      var to := Find(s.rows, op.slug).value.originalSlug.value;
      RestoreIs(s, op.slug, to);
      MoveDbAt(s.disk, op.slug, to, DbFile(op.slug, Main));
    }
  }

  lemma NotPulledNotStranded(s: Reg, op: Op, n: string)
    requires !PullsFile(s, op) && !Stranded(s, n)
    ensures !Stranded(Do(s, op).0, n)
  {
    if op.SoftDelete? {
      var to := Archived(op.slug, op.epoch);
      assert |to| > |op.slug|;
      SoftDeleteIs(s, op.slug, op.epoch, op.at);
      MoveDbAt(s.disk, op.slug, to, DbFile(n, Main));
    } else if op.Restore? {
      var rec := Find(s.rows, op.slug);
      if rec.Some? && rec.value.status == "deleted" && rec.value.originalSlug.Some? {
        var to := rec.value.originalSlug.value;
        RestoreIs(s, op.slug, to);
        if to != op.slug {
          MoveDbAt(s.disk, op.slug, to, DbFile(n, Main));
        }
      }
    }
  }

  /** A connection that stays open while the call puts another database's file under its name. */
  ghost predicate Swapped(s: Reg, op: Op, n: string)
  {
    var t, file := Do(s, op).0, DbFile(n, Main);
    !op.Write? && n in s.conns && n in t.conns && file in t.disk && At(t.disk, file) != At(s.disk, file)
  }

  /** The move to this name finds it open, and a file with other contents to put there. */
  predicate LandsOnOpen(s: Reg, from: string, to: string)
  {
    to in s.conns && DbFile(from, Main) in s.disk && At(s.disk, DbFile(from, Main)) != At(s.disk, DbFile(to, Main))
  }

  /** A soft deletion or a restore that lands on an open name. */
  predicate SwapsFile(s: Reg, op: Op)
  {
    match op
    case SoftDelete(slug, epoch, _) => LandsOnOpen(s, slug, Archived(slug, epoch))
    case Restore(slug) =>
      var rec := Find(s.rows, slug);
      rec.Some? && rec.value.status == "deleted" && rec.value.originalSlug.Some?
      && LandsOnOpen(s, slug, rec.value.originalSlug.value)
    case _ => false
  }

  /** Nor does either look whether the target name is open. A call replaces the file under an open
      connection exactly when it is such a soft deletion or restore. */
  lemma SwapsIff(s: Reg, op: Op)
    ensures (exists n :: Swapped(s, op, n)) <==> SwapsFile(s, op)
  {
    if SwapsFile(s, op) {
      var n := LandedIsSwapped(s, op);
    } else {
      forall n ensures !Swapped(s, op, n) {
        NotLandedNotSwapped(s, op, n);
      }
    }
  }

  lemma LandedIsSwapped(s: Reg, op: Op) returns (n: string)
    requires SwapsFile(s, op)
    ensures Swapped(s, op, n)
  {
    if op.Restore? {
      n := Find(s.rows, op.slug).value.originalSlug.value;
      RestoreIs(s, op.slug, n);
    } else {
      n := Archived(op.slug, op.epoch);
      SoftDeleteIs(s, op.slug, op.epoch, op.at);
      assert |n| > |op.slug|;
    }
    MoveDbAt(s.disk, op.slug, n, DbFile(n, Main));
  }

  lemma NotLandedNotSwapped(s: Reg, op: Op, n: string)
    requires !SwapsFile(s, op)
    ensures !Swapped(s, op, n)
  {
    if op.SoftDelete? {
      var to := Archived(op.slug, op.epoch);
      assert |to| > |op.slug|;
      SoftDeleteIs(s, op.slug, op.epoch, op.at);
      MoveDbAt(s.disk, op.slug, to, DbFile(n, Main));
    } else if op.Restore? {
      var rec := Find(s.rows, op.slug);
      if rec.Some? && rec.value.status == "deleted" && rec.value.originalSlug.Some? {
        var to := rec.value.originalSlug.value;
        RestoreIs(s, op.slug, to);
        if to != op.slug {
          MoveDbAt(s.disk, op.slug, to, DbFile(n, Main));
        }
      }
    }
  }
}
