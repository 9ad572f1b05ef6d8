/** The files of a database on disk: <slug>.db with its -wal and -shm sidecars. */
module DbFiles {
  import opened Prelude

  datatype Suffix = Main | Wal | Shm

  datatype DbFile = DbFile(slug: string, suffix: Suffix)

  /** What the data directory holds, by database and suffix. */
  type Disk = map<DbFile, Bytes>

  function SuffixText(s: Suffix): string
  {
    match s
    case Main => ""
    case Wal => "-wal"
    case Shm => "-shm"
  }

  function Path(f: DbFile): string
  {
    f.slug + ".db" + SuffixText(f.suffix)
  }

  /** Different databases and suffixes never share a file name, so a Disk may be keyed by them. */
  lemma PathInjective(f: DbFile, g: DbFile)
    requires Path(f) == Path(g)
    ensures f == g
  {
    var p := Path(f);
    LastThree(f);
    LastThree(g);
    assert f.suffix == g.suffix;
    assert f.slug == p[..|p| - 3 - |SuffixText(f.suffix)|] == g.slug;
  }

  lemma LastThree(f: DbFile)
    ensures var p := Path(f);
      |p| >= 3 && p[|p| - 3..] == (match f.suffix case Main => ".db" case Wal => "wal" case Shm => "shm")
  {
    var p := Path(f);
    match f.suffix
    case Main => assert p[|p| - 3..] == ".db";
    case Wal => assert p[|p| - 3..] == "wal";
    case Shm => assert p[|p| - 3..] == "shm";
  }

  /** Stat, then rename over whatever is at the target; nothing if the source is absent. */
  function Move(d: Disk, from: DbFile, to: DbFile): Disk
  {
    if from in d then (d - {from})[to := d[from]] else d
  }

  /** The loop over the three suffixes. */
  function MoveDb(d: Disk, from: string, to: string): Disk
  {
    Move(Move(Move(d, DbFile(from, Main), DbFile(to, Main)), DbFile(from, Wal), DbFile(to, Wal)),
         DbFile(from, Shm), DbFile(to, Shm))
  }

  function RemoveDb(d: Disk, slug: string): Disk
  {
    d - {DbFile(slug, Main), DbFile(slug, Wal), DbFile(slug, Shm)}
  }

  /** What a file holds, or nothing. */
  function At(d: Disk, f: DbFile): Option<Bytes>
  {
    if f in d then Some(d[f]) else None
  }

  /** Moving a database gives each target file the source's contents if there was one, leaves no
      source file, and touches nothing else. */
  lemma MoveDbAt(d: Disk, from: string, to: string, f: DbFile)
    requires from != to
    ensures At(MoveDb(d, from, to), f) ==
      if f.slug == to && DbFile(from, f.suffix) in d then At(d, DbFile(from, f.suffix))
      else if f.slug == from then None
      else At(d, f)
  {
    match f.suffix
    case Main =>
    case Wal =>
    case Shm =>
  }

  /** Disks are equal when every file reads the same. */
  lemma DiskExtensional(d: Disk, e: Disk)
    requires forall f :: At(d, f) == At(e, f)
    ensures d == e
  {
    forall f ensures f in d <==> f in e {
      assert At(d, f) == At(e, f);
    }
    forall f | f in d ensures d[f] == e[f] {
      assert At(d, f) == At(e, f);
    }
  }
}
