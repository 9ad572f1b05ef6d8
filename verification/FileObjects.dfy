/** MetadataDB and Storage as objects: the tables and the blob directory updated statement by
    statement. Each method's contract is the matching operation of FileStore on its view. */
module FileObjects {
  import opened Prelude
  import opened FileStore
  import opened MapSums
  import Strings

  /** The files and blob_refs tables (server/files/metadata.go). */
  class MetadataDB {
    var rows: map<string, FileRow>
    var refs: map<string, int>

    constructor ()
      ensures rows == map[] && refs == map[]
    {
      rows, refs := map[], map[];
    }

    method DBUsageStats(ns: string) returns (fileCount: int, totalBytes: int)
      ensures fileCount == FileCount(rows, ns) && totalBytes == TotalBytes(rows, ns)
    {
      var left := Sizes(rows, ns);
      fileCount, totalBytes := |left|, 0;
      while left != map[]
        invariant totalBytes + Total(left) == TotalBytes(rows, ns)
        decreases |left|
      {
        var id :| id in left;
        TotalSplit(left, id);
        totalBytes := totalBytes + left[id];
        left := left - {id};
      }
    }

    method GetByLogicalPath(ns: string, folder: string, name: string) returns (found: Option<FileRow>)
      requires forall id :: id in rows ==> rows[id].id == id
      ensures IsLatest(rows, ns, folder, name, found)
      ensures match found
        case None => forall id :: id in rows ==> !(rows[id].ns == ns && rows[id].folder == folder && rows[id].name == name)
        case Some(r) =>
          && r.id in rows && rows[r.id] == r && r.ns == ns && r.folder == folder && r.name == name
          && forall id :: id in rows && rows[id].ns == ns && rows[id].folder == folder && rows[id].name == name ==>
               rows[id].uploadedAt < r.uploadedAt || (rows[id].uploadedAt == r.uploadedAt && Strings.Leq(id, r.id))
    {
      found := None;
      var left := rows.Keys;
      while left != {}
        invariant left <= rows.Keys
        invariant IsLatest(rows - left, ns, folder, name, found)
        decreases |left|
      {
        var id :| id in left;
        var r := rows[id];
        if AtPath(r, ns, folder, name) {
          if found.None? || !NotBefore(found.value, r) {
            LatestSoFar(rows - left, ns, folder, name, found, r);
            found := Some(r);
          }
          NotBeforeTotal(r, r);
        }
        assert rows - (left - {id}) == (rows - left)[id := r];
        left := left - {id};
      }
      assert rows - {} == rows;
      LatestMeans(rows, ns, folder, name, found);
    }

    method InsertFile(f: FileRow)
      modifies this`rows
      ensures rows == old(rows)[f.id := f]
    {
      rows := rows[f.id := f];
    }

    /** One transaction: read the old hash, delete the old row, insert the new one. */
    method ReplaceFile(oldID: string, f: FileRow) returns (oldHash: string)
      requires oldID in rows
      modifies this`rows
      ensures rows == (old(rows) - {oldID})[f.id := f] && oldHash == old(rows)[oldID].hash
    {
      oldHash := rows[oldID].hash;
      rows := rows - {oldID};
      rows := rows[f.id := f];
    }

    /** An absent id reports an empty hash. */
    method DeleteFile(id: string) returns (contentHash: string)
      modifies this`rows
      ensures rows == old(rows) - {id}
      ensures contentHash == if id in old(rows) then old(rows)[id].hash else ""
    {
      contentHash := if id in rows then rows[id].hash else "";
      rows := rows - {id};
    }

    /** SELECT DISTINCT content_hash over the given rows. */
    method DistinctHashes(ids: set<string>) returns (hashes: seq<string>)
      ensures Lists(hashes, HashesOf(rows, ids))
    {
      hashes := [];
      var left := ids;
      while left != {}
        invariant left <= ids
        invariant Lists(hashes, HashesOf(rows, ids - left))
        decreases |left|
      {
        var id :| id in left;
        if id in rows && rows[id].hash !in hashes {
          hashes := hashes + [rows[id].hash];
        }
        assert HashesOf(rows, ids - (left - {id})) ==
          HashesOf(rows, ids - left) + (if id in rows then {rows[id].hash} else {});
        left := left - {id};
      }
      assert ids - {} == ids;
    }

    method DeleteFilesForDatabase(ns: string) returns (hashes: seq<string>)
      modifies this`rows
      ensures Lists(hashes, HashesOf(old(rows), Owned(old(rows), ns)))
      ensures rows == old(rows) - Owned(old(rows), ns)
      ensures forall id :: id in rows <==> id in old(rows) && old(rows)[id].ns != ns
      ensures forall id :: id in rows ==> rows[id] == old(rows)[id]
      ensures forall h :: h in hashes <==> exists id :: id in old(rows) && old(rows)[id].ns == ns && old(rows)[id].hash == h
      ensures forall i, j :: 0 <= i < j < |hashes| ==> hashes[i] != hashes[j]
    {
      hashes := DistinctHashes(Owned(rows, ns));
      rows := rows - Owned(rows, ns);
    }

    method CleanupExpiredFiles(t1: int, t2: int) returns (hashes: seq<string>)
      modifies this`rows
      ensures Lists(hashes, HashesOf(old(rows), Expired(old(rows), t1)))
      ensures rows == old(rows) - Expired(old(rows), t2)
      ensures forall id :: id in rows <==>
        id in old(rows) && (old(rows)[id].expiresAt.None? || old(rows)[id].expiresAt.value > t2)
      ensures forall id :: id in rows ==> rows[id] == old(rows)[id]
      ensures forall h :: h in hashes <==> exists id ::
        id in old(rows) && old(rows)[id].expiresAt.Some? && old(rows)[id].expiresAt.value <= t1 && old(rows)[id].hash == h
      ensures forall i, j :: 0 <= i < j < |hashes| ==> hashes[i] != hashes[j]
    {
      hashes := DistinctHashes(Expired(rows, t1));
      rows := rows - Expired(rows, t2);
    }

    /** How many references a hash is recorded to have. */
    ghost function Count(hash: string): int
      reads this
    {
      if hash in refs then refs[hash] else 0
    }

    /** The hash has one reference more, and is recorded; no other count moves. */
    method IncrBlobRef(hash: string)
      modifies this`refs
      ensures hash in refs && Count(hash) == old(Count(hash)) + 1
      ensures forall k :: k != hash ==> Count(k) == old(Count(k)) && (k in refs <==> k in old(refs))
      ensures refs == Incr(old(refs), hash)
    {
      refs := refs[hash := if hash in refs then refs[hash] + 1 else 1];
    }

    /** One transaction: decrement, read back, and drop the row once it is no longer positive. */
    method DecrBlobRef(hash: string) returns (remaining: int)
      modifies this`refs
      ensures (refs, remaining) == Decr(old(refs), hash)
      ensures remaining == if hash in old(refs) then old(refs)[hash] - 1 else 0
      ensures hash in refs <==> remaining > 0
      ensures hash in refs ==> refs[hash] == remaining
      ensures refs - {hash} == old(refs) - {hash}
    {
      ghost var before := refs;
      if hash in refs {
        refs := refs[hash := refs[hash] - 1];
      }
      assert refs - {hash} == before - {hash};
      assert hash !in before ==> before - {hash} == before;
      remaining := if hash in refs then refs[hash] else 0;
      if remaining <= 0 {
        refs := refs - {hash};
      }
    }
  }

  /** Which row that is, column by column. */
  lemma LatestMeans(rows: map<string, FileRow>, ns: string, folder: string, name: string, found: Option<FileRow>)
    requires IsLatest(rows, ns, folder, name, found) && forall id :: id in rows ==> rows[id].id == id
    ensures match found
      case None => forall id :: id in rows ==> !(rows[id].ns == ns && rows[id].folder == folder && rows[id].name == name)
      case Some(r) =>
        && r.id in rows && rows[r.id] == r && r.ns == ns && r.folder == folder && r.name == name
        && forall id :: id in rows && rows[id].ns == ns && rows[id].folder == folder && rows[id].name == name ==>
             rows[id].uploadedAt < r.uploadedAt || (rows[id].uploadedAt == r.uploadedAt && Strings.Leq(id, r.id))
  {
  }

  lemma NotBeforeTotal(a: FileRow, b: FileRow)
    ensures NotBefore(a, b) || NotBefore(b, a)
  {
    Strings.LeqTotal(a.id, b.id);
  }

  lemma NotBeforeTrans(a: FileRow, b: FileRow, c: FileRow)
    requires NotBefore(a, b) && NotBefore(b, c)
    ensures NotBefore(a, c)
  {
    if a.uploadedAt == b.uploadedAt == c.uploadedAt {
      Strings.LeqTrans(c.id, b.id, a.id);
    }
  }

  /** A row not beaten by the best so far is itself best. */
  lemma LatestSoFar(
    rows: map<string, FileRow>, ns: string, folder: string, name: string, found: Option<FileRow>, r: FileRow)
    requires IsLatest(rows, ns, folder, name, found) && (found.Some? ==> !NotBefore(found.value, r))
    ensures forall id :: id in rows && AtPath(rows[id], ns, folder, name) ==> NotBefore(r, rows[id])
  {
    forall id | id in rows && AtPath(rows[id], ns, folder, name) ensures NotBefore(r, rows[id]) {
      NotBeforeTotal(found.value, r);
      NotBeforeTrans(r, found.value, rows[id]);
    }
  }

  lemma EmptyGood(env: Env, lim: Limits)
    ensures Good(env, lim, Empty)
  {
    EmptyOk(env);
    forall ns ensures NamespaceOk(lim, Empty.rows, ns) {
      assert Sizes(Empty.rows, ns) == map[];
    }
  }

  /** An upload is admitted exactly when each limit is kept. */
  lemma AcceptanceIs(env: Env, lim: Limits, s: Store, inp: UploadInput, existing: Option<FileRow>)
    ensures Admit(env, lim, s, inp, existing).Ok? <==>
      && env.normFolder(inp.folder).Some?
      && (inp.conflictMode == "" || inp.conflictMode == "replace" || (inp.conflictMode == "error" && existing.None?))
      && |inp.data| <= lim.maxFileSize
      && (inp.metadata.Some? ==> |inp.metadata.value| <= lim.maxMetadata)
      && (env.sniff(inp.data) == "" || inp.contentType == "" || env.sniff(inp.data) == inp.contentType)
      && env.allowed(if inp.contentType == "" then env.sniff(inp.data) else inp.contentType)
      && FileCount(s.rows, inp.ns) - (if existing.Some? then 1 else 0) < lim.maxFiles
      && TotalBytes(s.rows, inp.ns) - (if existing.Some? then existing.value.size else 0) + |inp.data| <= lim.maxStorage
  {
    AdmittedIff(env, lim, s, inp, existing);
    if forall e :: !Violates(env, lim, s.rows, inp, existing, e) {
      assert !Violates(env, lim, s.rows, inp, existing, FolderInvalid);
      assert !Violates(env, lim, s.rows, inp, existing, InvalidConflict);
      assert !Violates(env, lim, s.rows, inp, existing, FileTooLarge);
      assert !Violates(env, lim, s.rows, inp, existing, MetadataTooLarge);
      assert !Violates(env, lim, s.rows, inp, existing, MimeMismatch);
      assert !Violates(env, lim, s.rows, inp, existing, MimeNotAllowed);
      assert !Violates(env, lim, s.rows, inp, existing, Conflict);
      assert !Violates(env, lim, s.rows, inp, existing, TooManyFiles);
      assert !Violates(env, lim, s.rows, inp, existing, StorageQuota);
    }
  }

  /** What an upload leaves: nothing changed, or the one new row in place of the one at its path. */
  lemma UploadMeans(env: Env, lim: Limits, s: Store, inp: UploadInput, existing: Option<FileRow>, id: string, now: int)
    ensures var admitted, t := Admit(env, lim, s, inp, existing), Apply(env, lim, s, Op.Upload(inp, existing, id, now));
      && (admitted.Err? ==> t == s)
      && (admitted.Ok? ==>
            var row := NewRow(env, inp, admitted.value, id, now);
            && t == Commit(s, row, inp.data, existing)
            && t.rows == (if existing.Some? then s.rows - {existing.value.id} else s.rows)[id := row]
            && row == FileRow(
                 id, inp.ns, env.normFolder(inp.folder).value, env.normName(inp.name), env.sha(inp.data),
                 if inp.contentType == "" then env.sniff(inp.data) else inp.contentType,
                 |inp.data|, now, inp.expiresAt, inp.metadata))
  {
    AdmittedIff(env, lim, s, inp, existing);
    AcceptanceIs(env, lim, s, inp, existing);
  }

  /** server/files/storage.go: metadata plus the blob directory. */
  class Storage {
    const meta: MetadataDB
    const env: Env
    const limits: Limits
    var blobs: map<string, Bytes>
    ghost var sent: map<string, Bytes>

    constructor (env: Env, limits: Limits)
      ensures Valid() && View() == Empty && fresh(meta)
      ensures this.env == env && this.limits == limits
    {
      meta := new MetadataDB();
      this.env, this.limits := env, limits;
      blobs, sent := map[], map[];
      new;
      EmptyGood(env, limits);
    }

    /** What every method keeps: consistent counts, rows and blobs, and every limit. */
    ghost predicate Valid()
      reads this, meta
    {
      Good(env, limits, View())
    }

    ghost function View(): Store
      reads this, meta
    {
      Store(meta.rows, meta.refs, blobs, sent)
    }

    method Remove(hash: string)
      modifies this`blobs
      ensures blobs == old(blobs) - {hash}
    {
      blobs := blobs - {hash};
    }

    /** The GC tail shared by all deletes. */
    method ReleaseHash(hash: string)
      modifies this`blobs, meta`refs
      ensures View() == Release(old(View()), hash)
    {
      var remaining := meta.DecrBlobRef(hash);
      if remaining <= 0 {
        Remove(hash);
      }
    }

    method Check(inp: UploadInput, existing: Option<FileRow>) returns (r: Result<string, UploadError>)
      ensures r == Admit(env, limits, View(), inp, existing)
    {
      if env.normFolder(inp.folder).None? { return Err(FolderInvalid); }
      var mode := if inp.conflictMode == "" then "replace" else inp.conflictMode;
      if mode != "replace" && mode != "error" { return Err(InvalidConflict); }
      if |inp.data| > limits.maxFileSize { return Err(FileTooLarge); }
      if inp.metadata.Some? && |inp.metadata.value| > limits.maxMetadata { return Err(MetadataTooLarge); }
      var sniffed := env.sniff(inp.data);
      if sniffed != "" && inp.contentType != "" && sniffed != inp.contentType { return Err(MimeMismatch); }
      var mime := if inp.contentType == "" then sniffed else inp.contentType;
      if !env.allowed(mime) { return Err(MimeNotAllowed); }
      var fileCount, totalBytes := meta.DBUsageStats(inp.ns);
      if existing.Some? {
        if mode == "error" { return Err(Conflict); }
        fileCount := fileCount - 1;
        totalBytes := totalBytes - existing.value.size;
      }
      if fileCount >= limits.maxFiles { return Err(TooManyFiles); }
      if totalBytes + |inp.data| > limits.maxStorage { return Err(StorageQuota); }
      r := Ok(mime);
    }

    /** Steps 9 and 10 of Upload: write the blob if it is new, then the row and the counts. */
    method Persist(rec: FileRow, data: Bytes, existing: Option<FileRow>)
      requires existing.Some? ==> existing.value.id in meta.rows && meta.rows[existing.value.id] == existing.value
      modifies this, meta
      ensures View() == Commit(old(View()), rec, data, existing)
    {
      if rec.hash !in blobs {
        blobs := blobs[rec.hash := data];
      }
      sent := sent[rec.id := data];
      if existing.Some? {
        var oldHash := meta.ReplaceFile(existing.value.id, rec);
        meta.IncrBlobRef(rec.hash);
        var remaining := meta.DecrBlobRef(oldHash);
        if remaining <= 0 && oldHash != rec.hash {
          Remove(oldHash);
        }
      } else {
        meta.InsertFile(rec);
        meta.IncrBlobRef(rec.hash);
      }
    }

    /** id is the fresh UUID, now the upload time. */
    method Upload(inp: UploadInput, id: string, now: int)
      returns (r: Result<FileRow, UploadError>, ghost existing: Option<FileRow>)
      requires forall k :: k in meta.rows ==> meta.rows[k].id == k
      modifies this, meta
      ensures IsLatest(old(meta.rows), inp.ns, env.normFolder(inp.folder).GetOr(""), env.normName(inp.name), existing)
      ensures View() == Apply(env, limits, old(View()), FileStore.Upload(inp, existing, id, now))
      ensures match existing
        case None => forall k :: k in old(meta.rows) ==>
          !(old(meta.rows)[k].ns == inp.ns && old(meta.rows)[k].folder == env.normFolder(inp.folder).GetOr("")
            && old(meta.rows)[k].name == env.normName(inp.name))
        case Some(prev) =>
          && prev.id in old(meta.rows) && old(meta.rows)[prev.id] == prev
          && prev.ns == inp.ns && prev.folder == env.normFolder(inp.folder).GetOr("") && prev.name == env.normName(inp.name)
      ensures r.Ok? <==>
        && env.normFolder(inp.folder).Some?
        && (inp.conflictMode == "" || inp.conflictMode == "replace" || (inp.conflictMode == "error" && existing.None?))
        && |inp.data| <= limits.maxFileSize
        && (inp.metadata.Some? ==> |inp.metadata.value| <= limits.maxMetadata)
        && (env.sniff(inp.data) == "" || inp.contentType == "" || env.sniff(inp.data) == inp.contentType)
        && env.allowed(if inp.contentType == "" then env.sniff(inp.data) else inp.contentType)
        && FileCount(old(meta.rows), inp.ns) - (if existing.Some? then 1 else 0) < limits.maxFiles
        && TotalBytes(old(meta.rows), inp.ns) - (if existing.Some? then existing.value.size else 0) + |inp.data|
           <= limits.maxStorage
      ensures r.Err? ==> View() == old(View()) && Admit(env, limits, old(View()), inp, existing) == Err(r.error)
      ensures r.Ok? ==> r.value == FileRow(
        id, inp.ns, env.normFolder(inp.folder).value, env.normName(inp.name), env.sha(inp.data),
        if inp.contentType == "" then env.sniff(inp.data) else inp.contentType,
        |inp.data|, now, inp.expiresAt, inp.metadata)
      ensures r.Ok? ==>
        meta.rows == (if existing.Some? then old(meta.rows) - {existing.value.id} else old(meta.rows))[id := r.value]
      ensures inp.conflictMode == "error" && id !in old(meta.rows) ==>
        forall k :: k in old(meta.rows) ==> k in meta.rows && meta.rows[k] == old(meta.rows)[k]
      ensures old(Valid()) && id !in old(meta.rows) && id !in old(sent) ==> Valid()
    {
      ghost var s := View();
      var found := meta.GetByLogicalPath(inp.ns, env.normFolder(inp.folder).GetOr(""), env.normName(inp.name));
      existing := found;
      LatestMeans(s.rows, inp.ns, env.normFolder(inp.folder).GetOr(""), env.normName(inp.name), found);
      UploadMeans(env, limits, s, inp, found, id, now);
      AcceptanceIs(env, limits, s, inp, found);
      var verdict := Check(inp, found);
      if verdict.Err? {
        return Err(verdict.error), existing;
      }
      ghost var op := FileStore.Upload(inp, found, id, now);
      var rec := NewRow(env, inp, verdict.value, id, now);
      Persist(rec, inp.data, found);
      r := Ok(rec);
      if Good(env, limits, s) && id !in s.rows && id !in s.sent {
        GoodStep(env, limits, s, op);
      }
    }

    method DeleteByID(id: string, ns: string) returns (ok: bool)
      modifies this, meta
      ensures ok <==> id in old(meta.rows) && old(meta.rows)[id].ns == ns
      ensures View() == Apply(env, limits, old(View()), Delete(id, ns))
      ensures !ok ==> View() == old(View())
      ensures ok ==> meta.rows == old(meta.rows) - {id}
      ensures ok && old(Valid()) ==> forall h ::
        RefCount(View(), h) == RefCount(old(View()), h) - if h == old(meta.rows)[id].hash then 1 else 0
      ensures old(Valid()) ==> Valid()
    {
      ghost var s := View();
      if id !in meta.rows || meta.rows[id].ns != ns {
        return false;
      }
      var hash := meta.DeleteFile(id);
      ReleaseHash(hash);
      ok := true;
      if Good(env, limits, s) {
        GoodStep(env, limits, s, Delete(id, ns));
        forall h ensures RefCount(View(), h) == RefCount(s, h) - if h == s.rows[id].hash then 1 else 0 {
          CountAfterDelete(env, s, id, h);
        }
      }
    }

    /** The loop over listed hashes. */
    method ReleaseListed(hashes: seq<string>)
      modifies this`blobs, meta`refs
      ensures View() == ReleaseAll(old(View()), hashes)
    {
      for i := 0 to |hashes|
        invariant meta.rows == old(meta.rows) && sent == old(sent)
        invariant ReleaseAll(View(), hashes[i..]) == ReleaseAll(old(View()), hashes)
      {
        ReleaseHash(hashes[i]);
        assert hashes[i..][1..] == hashes[i + 1..];
      }
    }

    method DeleteAllForDatabase(ns: string) returns (ghost hashes: seq<string>)
      modifies this, meta
      ensures Possible(old(View()), env, DeleteAll(ns, hashes))
      ensures View() == Apply(env, limits, old(View()), DeleteAll(ns, hashes))
      ensures forall id :: id in meta.rows <==> id in old(meta.rows) && old(meta.rows)[id].ns != ns
      ensures forall id :: id in meta.rows ==> meta.rows[id] == old(meta.rows)[id]
      ensures forall h :: h in hashes <==>
        exists id :: id in old(meta.rows) && old(meta.rows)[id].ns == ns && old(meta.rows)[id].hash == h
      ensures old(Valid()) ==> forall h ::
        RefCount(View(), h) == RefCount(old(View()), h) - if h in hashes then 1 else 0
      ensures old(Valid()) ==> Valid()
    {
      ghost var s := View();
      var listed := meta.DeleteFilesForDatabase(ns);
      ReleaseListed(listed);
      hashes := listed;
      if Good(env, limits, s) {
        GoodStep(env, limits, s, DeleteAll(ns, hashes));
        BulkCounts(env, limits, s, DeleteAll(ns, hashes));
      }
    }

    method CleanupExpired(t1: int, t2: int) returns (ghost hashes: seq<string>)
      modifies this, meta
      ensures t1 <= t2 ==> Possible(old(View()), env, Expire(t1, t2, hashes))
      ensures View() == Apply(env, limits, old(View()), Expire(t1, t2, hashes))
      ensures forall id :: id in meta.rows <==>
        id in old(meta.rows) && (old(meta.rows)[id].expiresAt.None? || old(meta.rows)[id].expiresAt.value > t2)
      ensures forall id :: id in meta.rows ==> meta.rows[id] == old(meta.rows)[id]
      ensures forall h :: h in hashes <==> exists id ::
        id in old(meta.rows) && old(meta.rows)[id].expiresAt.Some? && old(meta.rows)[id].expiresAt.value <= t1
        && old(meta.rows)[id].hash == h
      ensures old(Valid()) && t1 <= t2 ==> forall h ::
        RefCount(View(), h) == RefCount(old(View()), h) - if h in hashes then 1 else 0
      ensures old(Valid()) && t1 <= t2 ==> Valid()
    {
      ghost var s := View();
      var listed := meta.CleanupExpiredFiles(t1, t2);
      ReleaseListed(listed);
      hashes := listed;
      if Good(env, limits, s) && t1 <= t2 {
        GoodStep(env, limits, s, Expire(t1, t2, hashes));
        BulkCounts(env, limits, s, Expire(t1, t2, hashes));
      }
    }
  }
}
