/** Soft deletion and restoring in the data directory itself, any calls in between. */
module RoundTrips {
  import opened Prelude
  import opened DbFiles
  import opened Lifecycle
  import opened RegistryFile

  /** The move, on the disk itself: the registry's own file is neither of the two. */
  lemma SeenMove(was: Disk, now: Disk, from: string, to: string, suffix: Suffix)
    requires STORE !in {from, to} && ArchivedFiles(was - {HOME}, now - {HOME}, from, to, suffix)
    ensures ArchivedFiles(was, now, from, to, suffix)
  {
  }

  /** A soft delete goes through exactly when the archive name is unused by another row. If it is
      used, the call fails with the row in place and the files already gone from under it. */
  lemma {:induction false} SoftDeleteOutcome(c: Codec, d: Dir, slug: string, epoch: nat, at: string)
    requires Faithful(c) && Unique(Rows(c, d)) && Find(Rows(c, d), slug).Some? && slug != STORE
    ensures var newSlug, (t, ok) := Archived(slug, epoch), Act(c, d, SoftDelete(slug, epoch, at));
      && (ok <==> Find(Rows(c, d), newSlug).None?)
      && (ok ==> Find(Rows(c, t), newSlug) == Some(Changed(Find(Rows(c, d), slug).value, MarkDeleted(newSlug, at))))
      && (ok ==> Find(Rows(c, t), slug) == None)
      && (!ok ==> Rows(c, t) == Rows(c, d))
      && slug !in t.conns
      && forall suffix :: ArchivedFiles(d.disk, t.disk, slug, newSlug, suffix)
  {
    var op, newSlug := SoftDelete(slug, epoch, at), Archived(slug, epoch);
    ArchiveIsNoStore(slug, epoch);
    Simulates(c, d, op);
    Lifecycle.SoftDeleteOutcome(View(c, d), slug, epoch, at);
    var t := Act(c, d, op).0;
    forall suffix ensures ArchivedFiles(d.disk, t.disk, slug, newSlug, suffix) {
      assert ArchivedFiles(View(c, d).disk, Do(View(c, d), op).0.disk, slug, newSlug, suffix);
      HiddenMove(View(c, d).disk, Do(View(c, d), op).0.disk, slug, newSlug, suffix);
      SeenMove(d.disk, t.disk, slug, newSlug, suffix);
    }
  }

  lemma HiddenMove(was: Disk, now: Disk, from: string, to: string, suffix: Suffix)
    requires STORE !in {from, to} && ArchivedFiles(was, now, from, to, suffix)
    ensures ArchivedFiles(was, now - {HOME}, from, to, suffix)
  {
  }

  /** A restore goes through exactly when no row has taken the original slug. The files move
      either way, over whatever is there. */
  lemma {:induction false} RestoreOutcome(c: Codec, d: Dir, slug: string, to: string)
    requires Faithful(c) && Unique(Rows(c, d)) && Restorable(Rows(c, d), slug) == Some(to)
    requires to != slug && STORE !in {slug, to}
    ensures var (t, ok) := Act(c, d, Restore(slug));
      && (ok <==> Find(Rows(c, d), to).None?)
      && (ok ==> Find(Rows(c, t), to) == Some(Changed(Find(Rows(c, d), slug).value, MarkRestored(to))))
      && (ok ==> Find(Rows(c, t), slug) == None)
      && (!ok ==> Rows(c, t) == Rows(c, d))
      && forall suffix :: ArchivedFiles(d.disk, t.disk, slug, to, suffix)
  {
    Simulates(c, d, Restore(slug));
    Lifecycle.RestoreOutcome(View(c, d), slug, to);
    var t := Act(c, d, Restore(slug)).0;
    forall suffix ensures ArchivedFiles(d.disk, t.disk, slug, to, suffix) {
      assert ArchivedFiles(View(c, d).disk, Do(View(c, d), Restore(slug)).0.disk, slug, to, suffix);
      HiddenMove(View(c, d).disk, Do(View(c, d), Restore(slug)).0.disk, slug, to, suffix);
      SeenMove(d.disk, t.disk, slug, to, suffix);
    }
  }

  /** The state after a soft delete, any calls in between, and the restore. */
  function RoundTrip(c: Codec, d: Dir, slug: string, epoch: nat, at: string, between: seq<Op>): (Dir, bool)
  {
    Act(c, RunIn(c, Act(c, d, SoftDelete(slug, epoch, at)).0, between), Restore(Archived(slug, epoch)))
  }

  /** A database that can be soft-deleted, and calls that have to do with neither of its two names
      nor with the registry's file. */
  ghost predicate Trip(c: Codec, d: Dir, slug: string, epoch: nat, at: string, between: seq<Op>)
  {
    && Faithful(c) && Unique(Rows(c, d)) && slug != STORE
    && Find(Rows(c, d), slug).Some? && Find(Rows(c, d), Archived(slug, epoch)).None?
    && LeavesAlone(c, Act(c, d, SoftDelete(slug, epoch, at)).0, between, {slug, Archived(slug, epoch)})
  }

  /** The archive sits unchanged while calls go to other databases. */
  lemma {:induction false} Between(c: Codec, d: Dir, slug: string, epoch: nat, at: string, between: seq<Op>)
    requires Trip(c, d, slug, epoch, at, between)
    ensures var newSlug := Archived(slug, epoch);
      var back := RunIn(c, Act(c, d, SoftDelete(slug, epoch, at)).0, between);
      && Unique(Rows(c, back)) && Find(Rows(c, back), slug) == None
      && Find(Rows(c, back), newSlug) == Some(Changed(Find(Rows(c, d), slug).value, MarkDeleted(newSlug, at)))
      && forall suffix :: ArchivedFiles(d.disk, back.disk, slug, newSlug, suffix)
  {
    var newSlug, gone := Archived(slug, epoch), Act(c, d, SoftDelete(slug, epoch, at)).0;
    var back := RunIn(c, gone, between);
    ArchiveIsNoStore(slug, epoch);
    SoftDeleteOutcome(c, d, slug, epoch, at);
    UniqueIn(c, d, SoftDelete(slug, epoch, at));
    LeftAlone(c, gone, between, {slug, newSlug}, slug);
    LeftAlone(c, gone, between, {slug, newSlug}, newSlug);
    forall suffix ensures ArchivedFiles(d.disk, back.disk, slug, newSlug, suffix) {
      assert ArchivedFiles(d.disk, gone.disk, slug, newSlug, suffix);
      assert At(back.disk, DbFile(newSlug, suffix)) == At(gone.disk, DbFile(newSlug, suffix));
    }
  }

  ghost predicate RestoredFiles(was: Disk, end: Disk, slug: string, newSlug: string, suffix: Suffix)
  {
    && At(end, DbFile(newSlug, suffix)) == None
    && At(end, DbFile(slug, suffix)) ==
       if DbFile(slug, suffix) in was then At(was, DbFile(slug, suffix)) else At(was, DbFile(newSlug, suffix))
  }

  /** Whatever happens to other databases between a soft delete and its restore, the restore
      succeeds and brings back the row, active and free of deletion marks, and the files. */
  lemma {:induction false} RestoreUndoesSoftDelete(c: Codec, d: Dir, slug: string, epoch: nat, at: string, between: seq<Op>)
    requires Trip(c, d, slug, epoch, at, between)
    ensures var (end, ok) := RoundTrip(c, d, slug, epoch, at, between);
      && ok
      && Find(Rows(c, end), slug) ==
         Some(Find(Rows(c, d), slug).value.(status := "active", originalSlug := None, deletedAt := None))
      && Find(Rows(c, end), Archived(slug, epoch)) == None
      && forall suffix :: RestoredFiles(d.disk, end.disk, slug, Archived(slug, epoch), suffix)
  {
    var newSlug, gone := Archived(slug, epoch), Act(c, d, SoftDelete(slug, epoch, at)).0;
    var back := RunIn(c, gone, between);
    ArchiveIsNoStore(slug, epoch);
    Between(c, d, slug, epoch, at, between);
    RestoreOutcome(c, back, newSlug, slug);
    var end := Act(c, back, Restore(newSlug)).0;
    forall suffix ensures RestoredFiles(d.disk, end.disk, slug, newSlug, suffix) {
      assert ArchivedFiles(d.disk, back.disk, slug, newSlug, suffix);
      assert ArchivedFiles(back.disk, end.disk, newSlug, slug, suffix);
    }
  }

  /** Not so if the registry's file is removed in between: the archive is then unknown. */
  lemma ResetInBetweenLosesIt(c: Codec, d: Dir, slug: string, epoch: nat, at: string)
    requires Faithful(c)
    ensures !RoundTrip(c, d, slug, epoch, at, [Reset(STORE)]).1
  {
    var gone := Act(c, d, SoftDelete(slug, epoch, at)).0;
    assert [Reset(STORE)][1..] == [];
    assert Rows(c, RunIn(c, gone, [Reset(STORE)])) == [];
  }

  /** So the row comes back unchanged exactly when it was active with no deletion marks: deleting
      an inactive database and restoring it activates it, and deleting a deleted one twice loses
      its first slug. */
  lemma {:induction false} RowRestoredIff(c: Codec, d: Dir, slug: string, epoch: nat, at: string, between: seq<Op>)
    requires Trip(c, d, slug, epoch, at, between)
    ensures var r := Find(Rows(c, d), slug).value;
      Find(Rows(c, RoundTrip(c, d, slug, epoch, at, between).0), slug) == Some(r) <==>
        r.status == "active" && r.originalSlug == None && r.deletedAt == None
  {
    RestoreUndoesSoftDelete(c, d, slug, epoch, at, between);
  }

  /** And the files come back unchanged exactly when nothing lay at the archive name already. */
  lemma FilesRestoredIff(c: Codec, d: Dir, slug: string, epoch: nat, at: string, between: seq<Op>)
    requires Trip(c, d, slug, epoch, at, between)
    ensures var end, newSlug := RoundTrip(c, d, slug, epoch, at, between).0, Archived(slug, epoch);
      (forall suffix :: SameFiles(d.disk, end.disk, slug, newSlug, suffix)) <==>
        (forall suffix :: DbFile(newSlug, suffix) !in d.disk)
  {
    var end, newSlug := RoundTrip(c, d, slug, epoch, at, between).0, Archived(slug, epoch);
    RestoreUndoesSoftDelete(c, d, slug, epoch, at, between);
    forall suffix ensures SameFiles(d.disk, end.disk, slug, newSlug, suffix) <==> DbFile(newSlug, suffix) !in d.disk {
      assert RestoredFiles(d.disk, end.disk, slug, newSlug, suffix);
    }
  }

  ghost predicate SameFiles(was: Disk, end: Disk, slug: string, newSlug: string, suffix: Suffix)
  {
    && At(end, DbFile(slug, suffix)) == At(was, DbFile(slug, suffix))
    && At(end, DbFile(newSlug, suffix)) == At(was, DbFile(newSlug, suffix))
  }

  lemma NothingKeptBack(c: Codec, d: Dir, slug: string, epoch: nat, at: string)
    requires Faithful(c) && slug != STORE
    ensures View(c, Act(c, d, SoftDelete(slug, epoch, at)).0) == Do(View(c, d), SoftDelete(slug, epoch, at)).0
  {
    var s := View(c, d);
    var newSlug := Archived(slug, epoch);
    ArchiveIsNoStore(slug, epoch);
    Simulates(c, d, SoftDelete(slug, epoch, at));
    SoftDeleteIs(s, slug, epoch, at);
    MoveHidden(s.disk, slug, newSlug);
    assert s.disk - {HOME} == s.disk;
  }

  /** Done back to back, the two calls give back the very table, row order included, and every file
      but perhaps the bytes of the registry's own. */
  lemma {:induction false} RoundTripIsIdentity(c: Codec, d: Dir, slug: string, epoch: nat, at: string)
    requires Faithful(c) && Unique(Rows(c, d)) && slug != STORE
    requires Find(Rows(c, d), slug).Some? && Find(Rows(c, d), Archived(slug, epoch)).None?
    requires var r := Find(Rows(c, d), slug).value; r.status == "active" && r.originalSlug == None && r.deletedAt == None
    requires forall suffix :: DbFile(Archived(slug, epoch), suffix) !in d.disk
    ensures var (end, ok) := RoundTrip(c, d, slug, epoch, at, []);
      ok && View(c, end) == View(c, d).(conns := d.conns - {slug})
  {
    var s, newSlug := View(c, d), Archived(slug, epoch);
    var gone := Act(c, d, SoftDelete(slug, epoch, at)).0;
    ArchiveIsNoStore(slug, epoch);
    ArchiveKnown(c, d, slug, epoch, at);
    NothingKeptBack(c, d, slug, epoch, at);
    BackToBack(s, slug, epoch, at);
    TripAgrees(c, gone, newSlug, slug, s);
  }

  lemma {:induction false} ArchiveKnown(c: Codec, d: Dir, slug: string, epoch: nat, at: string)
    requires Faithful(c) && Unique(Rows(c, d)) && slug != STORE
    requires Find(Rows(c, d), slug).Some? && Find(Rows(c, d), Archived(slug, epoch)).None?
    ensures Restorable(Rows(c, Act(c, d, SoftDelete(slug, epoch, at)).0), Archived(slug, epoch)) == Some(slug)
  {
    SoftDeleteOutcome(c, d, slug, epoch, at);
  }

  lemma TripAgrees(c: Codec, gone: Dir, newSlug: string, slug: string, s: Reg)
    requires Faithful(c) && STORE !in {newSlug, slug} && HOME !in s.disk
    requires Do(View(c, gone), Restore(newSlug)) == (s.(conns := s.conns - {slug}), true)
    requires Restorable(Rows(c, gone), newSlug) == Some(slug)
    ensures (View(c, Act(c, gone, Restore(newSlug)).0), Act(c, gone, Restore(newSlug)).1) ==
      (s.(conns := s.conns - {slug}), true)
  {
    Simulates(c, gone, Restore(newSlug));
    assert s.disk - {HOME} == s.disk;
  }
}
