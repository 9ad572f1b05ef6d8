/** The content-addressed file store (server/files/storage.go, metadata.go): file rows, blob
    reference counts and the blob directory, as values, with what every operation does to them.
    Each operation runs to completion before the next. */
module FileStore {
  import opened Prelude
  import opened MapSums
  import Strings

  datatype FileRow = FileRow(
    id: string, ns: string, folder: string, name: string, hash: string, mime: string,
    size: nat, uploadedAt: int, expiresAt: Option<int>, metadata: Option<string>)

  datatype Limits = Limits(maxFileSize: nat, maxFiles: nat, maxStorage: nat, maxMetadata: nat)

  datatype UploadError =
    | FolderInvalid | InvalidConflict | FileTooLarge | MetadataTooLarge
    | MimeMismatch | MimeNotAllowed | Conflict | TooManyFiles | StorageQuota

  datatype UploadInput = UploadInput(
    ns: string, folder: string, name: string, contentType: string, data: Bytes,
    conflictMode: string, expiresAt: Option<int>, metadata: Option<string>)

  /** The library calls Upload makes: SHA-256, name and folder clean-up, MIME sniffing (empty when the
      bytes tell nothing), and matching against the allowed patterns. */
  datatype Env = Env(
    sha: Bytes -> string,
    normName: string -> string,
    normFolder: string -> Option<string>,
    sniff: Bytes -> string,
    allowed: string -> bool)

  ghost predicate Injective(sha: Bytes -> string)
  {
    forall a, b :: sha(a) == sha(b) ==> a == b
  }

  /** rows and refs are the two tables, blobs the directory; sent remembers, for every row ever
      made, the bytes its uploader handed in. */
  datatype Store = Store(
    rows: map<string, FileRow>, refs: map<string, int>, blobs: map<string, Bytes>, sent: map<string, Bytes>)

  const Empty := Store(map[], map[], map[], map[])

  // ---- Queries --------------------------------------------------------------------------

  function Sizes(rows: map<string, FileRow>, ns: string): map<string, nat>
  {
    map id | id in rows && rows[id].ns == ns :: rows[id].size
  }

  /** COUNT(*) and SUM(size_bytes) of DBUsageStats. */
  ghost function FileCount(rows: map<string, FileRow>, ns: string): nat
  {
    |Sizes(rows, ns)|
  }

  ghost function TotalBytes(rows: map<string, FileRow>, ns: string): nat
  {
    Total(Sizes(rows, ns))
  }

  predicate AtPath(r: FileRow, ns: string, folder: string, name: string)
  {
    r.ns == ns && r.folder == folder && r.name == name
  }

  /** ORDER BY uploaded_at DESC, id DESC puts a no later than b. */
  predicate NotBefore(a: FileRow, b: FileRow)
  {
    a.uploadedAt > b.uploadedAt || (a.uploadedAt == b.uploadedAt && Strings.Leq(b.id, a.id))
  }

  /** found is what GetByLogicalPath returns. */
  ghost predicate IsLatest(
    rows: map<string, FileRow>, ns: string, folder: string, name: string, found: Option<FileRow>)
  {
    match found
    case None => forall id :: id in rows ==> !AtPath(rows[id], ns, folder, name)
    case Some(r) =>
      && r.id in rows && rows[r.id] == r && AtPath(r, ns, folder, name)
      && forall id :: id in rows && AtPath(rows[id], ns, folder, name) ==> NotBefore(r, rows[id])
  }

  // ---- Reference counts -----------------------------------------------------------------

  function Incr(refs: map<string, int>, h: string): map<string, int>
  {
    refs[h := if h in refs then refs[h] + 1 else 1]
  }

  /** DecrBlobRef: the new table and the count it reports. A missing row reports 0. */
  function Decr(refs: map<string, int>, h: string): (map<string, int>, int)
  {
    if h !in refs then (refs, 0)
    else if refs[h] - 1 <= 0 then (refs - {h}, refs[h] - 1)
    else (refs[h := refs[h] - 1], refs[h] - 1)
  }

  /** Decrement, and remove the blob file when the count has run out. */
  function Release(s: Store, h: string): Store
  {
    var (refs, remaining) := Decr(s.refs, h);
    s.(refs := refs, blobs := if remaining <= 0 then s.blobs - {h} else s.blobs)
  }

  function ReleaseAll(s: Store, hashes: seq<string>): Store
    decreases |hashes|
  {
    if hashes == [] then s else ReleaseAll(Release(s, hashes[0]), hashes[1..])
  }

  // ---- Operations -----------------------------------------------------------------------

  /** Step 5: the declared type must not contradict the sniffed one, which stands in for it when
      none is declared. */
  function MimeOf(env: Env, data: Bytes, declared: string): Result<string, UploadError>
  {
    var sniffed := env.sniff(data);
    var mime := if declared == "" then sniffed else declared;
    if sniffed != "" && declared != "" && sniffed != declared then Err(MimeMismatch)
    else if !env.allowed(mime) then Err(MimeNotAllowed)
    else Ok(mime)
  }

  /** Steps 1 to 7 of Upload: every check, given the row already at the path (if any). */
  ghost function Admit(env: Env, lim: Limits, s: Store, inp: UploadInput, existing: Option<FileRow>)
    : Result<string, UploadError>
  {
    var mode := if inp.conflictMode == "" then "replace" else inp.conflictMode;
    var files := FileCount(s.rows, inp.ns) as int - (if existing.Some? then 1 else 0);
    var bytes := TotalBytes(s.rows, inp.ns) as int - (if existing.Some? then existing.value.size else 0);
    if env.normFolder(inp.folder).None? then Err(FolderInvalid)
    else if mode != "replace" && mode != "error" then Err(InvalidConflict)
    else if |inp.data| > lim.maxFileSize then Err(FileTooLarge)
    else if inp.metadata.Some? && |inp.metadata.value| > lim.maxMetadata then Err(MetadataTooLarge)
    else if MimeOf(env, inp.data, inp.contentType).Err? then MimeOf(env, inp.data, inp.contentType)
    else if existing.Some? && mode == "error" then Err(Conflict)
    else if files >= lim.maxFiles then Err(TooManyFiles)
    else if bytes + |inp.data| > lim.maxStorage then Err(StorageQuota)
    else MimeOf(env, inp.data, inp.contentType)
  }

  function NewRow(env: Env, inp: UploadInput, mime: string, id: string, now: int): FileRow
  {
    FileRow(id, inp.ns, env.normFolder(inp.folder).GetOr(""), env.normName(inp.name), env.sha(inp.data), mime,
            |inp.data|, now, inp.expiresAt, inp.metadata)
  }

  /** Step 9: write the blob unless a file of that name is already there. */
  function WriteBlob(s: Store, h: string, data: Bytes): Store
  {
    if h in s.blobs then s else s.(blobs := s.blobs[h := data])
  }

  /** Step 10: swap or insert the row, count the new hash up and then the replaced one down. */
  function Commit(s: Store, row: FileRow, data: Bytes, existing: Option<FileRow>): Store
  {
    var w := WriteBlob(s, row.hash, data);
    match existing
    case None =>
      w.(rows := w.rows[row.id := row], sent := w.sent[row.id := data], refs := Incr(w.refs, row.hash))
    case Some(prev) =>
      var t := w.(rows := (w.rows - {prev.id})[row.id := row], sent := w.sent[row.id := data],
                  refs := Incr(w.refs, row.hash));
      var (refs, remaining) := Decr(t.refs, prev.hash);
      t.(refs := refs, blobs := if remaining <= 0 && prev.hash != row.hash then t.blobs - {prev.hash} else t.blobs)
  }

  /** DeleteByID: an error unless the row exists and belongs to ns. */
  function DeleteById(s: Store, id: string, ns: string): Result<Store, ()>
  {
    if id !in s.rows || s.rows[id].ns != ns then Err(())
    else Ok(Release(s.(rows := s.rows - {id}), s.rows[id].hash))
  }

  function Owned(rows: map<string, FileRow>, ns: string): set<string>
  {
    set id | id in rows && rows[id].ns == ns
  }

  /** Rows whose expires_at is set and not after t. */
  function Expired(rows: map<string, FileRow>, t: int): set<string>
  {
    set id | id in rows && rows[id].expiresAt.Some? && rows[id].expiresAt.value <= t
  }

  function HashesOf(rows: map<string, FileRow>, ids: set<string>): set<string>
  {
    set id | id in ids && id in rows :: rows[id].hash
  }

  /** hashes lists a SELECT DISTINCT result, in whatever order the rows came. */
  ghost predicate Lists(hashes: seq<string>, of: set<string>)
  {
    && (forall h :: h in hashes <==> h in of)
    && (forall i, j :: 0 <= i < j < |hashes| ==> hashes[i] != hashes[j])
  }

  /** Delete the rows in gone, then decrement once per listed hash. */
  function RemoveRows(s: Store, gone: set<string>, hashes: seq<string>): Store
  {
    ReleaseAll(s.(rows := s.rows - gone), hashes)
  }

  /** One call on the store. The SELECT of an expiry reads the clock at t1, its DELETE at t2. */
  datatype Op =
    | Upload(inp: UploadInput, existing: Option<FileRow>, id: string, now: int)
    | Delete(id: string, ns: string)
    | DeleteAll(ns: string, hashes: seq<string>)
    | Expire(t1: int, t2: int, hashes: seq<string>)

  /** What the environment guarantees: lookups answer truthfully, new ids are fresh, the clock
      does not run backwards between two statements. */
  ghost predicate Possible(s: Store, env: Env, op: Op)
  {
    match op
    case Upload(inp, existing, id, now) =>
      && id !in s.rows && id !in s.sent
      && IsLatest(s.rows, inp.ns, env.normFolder(inp.folder).GetOr(""), env.normName(inp.name), existing)
    case Delete(_, _) => true
    case DeleteAll(ns, hashes) => Lists(hashes, HashesOf(s.rows, Owned(s.rows, ns)))
    case Expire(t1, t2, hashes) => t1 <= t2 && Lists(hashes, HashesOf(s.rows, Expired(s.rows, t1)))
  }

  ghost function Apply(env: Env, lim: Limits, s: Store, op: Op): Store
  {
    match op
    case Upload(inp, existing, id, now) =>
      var verdict := Admit(env, lim, s, inp, existing);
      if verdict.Err? then s else Commit(s, NewRow(env, inp, verdict.value, id, now), inp.data, existing)
    case Delete(id, ns) =>
      var r := DeleteById(s, id, ns);
      if r.Err? then s else r.value
    case DeleteAll(ns, hashes) => RemoveRows(s, Owned(s.rows, ns), hashes)
    case Expire(_, t2, hashes) => RemoveRows(s, Expired(s.rows, t2), hashes)
  }

  ghost predicate Legal(env: Env, lim: Limits, s: Store, ops: seq<Op>)
    decreases |ops|
  {
    ops == [] || (Possible(s, env, ops[0]) && Legal(env, lim, Apply(env, lim, s, ops[0]), ops[1..]))
  }

  ghost function Run(env: Env, lim: Limits, s: Store, ops: seq<Op>): Store
    decreases |ops|
  {
    if ops == [] then s else Run(env, lim, Apply(env, lim, s, ops[0]), ops[1..])
  }

  // ---- The counting invariant -----------------------------------------------------------

  /** Rows that point at the blob h. */
  ghost function RowsOf(rows: map<string, FileRow>, h: string): set<string>
  {
    set id | id in rows && rows[id].hash == h
  }

  ghost function RefCount(s: Store, h: string): int
  {
    if h in s.refs then s.refs[h] else 0
  }

  /** How far the stored count exceeds the true number of rows. */
  ghost function Leak(s: Store, h: string): int
  {
    RefCount(s, h) - |RowsOf(s.rows, h)|
  }

  ghost predicate RowOk(env: Env, s: Store, id: string)
    requires id in s.rows
  {
    var r := s.rows[id];
    r.id == id && id in s.sent && r.hash == env.sha(s.sent[id]) && r.size == |s.sent[id]|
  }

  ghost predicate HashOk(env: Env, s: Store, h: string)
  {
    && (h in s.blobs <==> h in s.refs)
    && (h in s.refs ==> s.refs[h] >= 1)
    && (h in s.blobs ==> env.sha(s.blobs[h]) == h)
    && Leak(s, h) >= 0
  }

  ghost predicate Inv(env: Env, s: Store)
  {
    && (forall id {:trigger RowOk(env, s, id)} :: id in s.rows ==> RowOk(env, s, id))
    && (forall h {:trigger HashOk(env, s, h)} :: HashOk(env, s, h))
  }

  // ---- Counting rows --------------------------------------------------------------------

  lemma CountInsert(rows: map<string, FileRow>, r: FileRow, h: string)
    requires r.id !in rows
    ensures |RowsOf(rows[r.id := r], h)| == |RowsOf(rows, h)| + (if r.hash == h then 1 else 0)
  {
    assert RowsOf(rows[r.id := r], h) == RowsOf(rows, h) + (if r.hash == h then {r.id} else {});
  }

  /** Removing rows takes exactly the removed ones out of each hash's count. */
  lemma CountRemove(rows: map<string, FileRow>, gone: set<string>, h: string)
    ensures |RowsOf(rows - gone, h)| == |RowsOf(rows, h)| - |RowsOf(rows, h) * gone|
  {
    var all := RowsOf(rows, h);
    assert RowsOf(rows - gone, h) == all - gone;
    assert |all| == |all - gone| + |all * gone| by {
      assert all == (all - gone) + (all * gone);
    }
  }

  lemma RemoveOnlyWidens(env: Env, s: Store, gone: set<string>)
    requires Inv(env, s)
    ensures Inv(env, s.(rows := s.rows - gone))
    ensures forall h :: Leak(s.(rows := s.rows - gone), h) == Leak(s, h) + |RowsOf(s.rows, h) * gone|
  {
    var t := s.(rows := s.rows - gone);
    forall h ensures Leak(t, h) == Leak(s, h) + |RowsOf(s.rows, h) * gone| {
      CountRemove(s.rows, gone, h);
    }
    forall h ensures HashOk(env, t, h) {
      assert HashOk(env, s, h);
    }
    forall id | id in t.rows ensures RowOk(env, t, id) {
      assert RowOk(env, s, id);
    }
  }

  /** Decrementing a hash that has slack, blob clean-up included, keeps everything in order. */
  lemma ReleaseOk(env: Env, s: Store, h: string)
    requires Inv(env, s) && Leak(s, h) >= 1
    ensures Inv(env, Release(s, h))
    ensures Release(s, h).rows == s.rows && Release(s, h).sent == s.sent
    ensures forall k :: Leak(Release(s, h), k) == Leak(s, k) - (if k == h then 1 else 0)
  {
    var t := Release(s, h);
    assert HashOk(env, s, h);
    assert RowsOf(t.rows, h) == RowsOf(s.rows, h);
    forall k ensures HashOk(env, t, k) && Leak(t, k) == Leak(s, k) - (if k == h then 1 else 0) {
      assert HashOk(env, s, k);
    }
    forall id | id in t.rows ensures RowOk(env, t, id) {
      assert RowOk(env, s, id);
    }
  }

  lemma {:induction false} ReleaseAllOk(env: Env, s: Store, hashes: seq<string>)
    requires Inv(env, s)
    requires forall h :: h in hashes ==> Leak(s, h) >= 1
    requires forall i, j :: 0 <= i < j < |hashes| ==> hashes[i] != hashes[j]
    ensures Inv(env, ReleaseAll(s, hashes))
    ensures ReleaseAll(s, hashes).rows == s.rows && ReleaseAll(s, hashes).sent == s.sent
    ensures forall h :: Leak(ReleaseAll(s, hashes), h) == Leak(s, h) - (if h in hashes then 1 else 0)
    decreases |hashes|
  {
    if hashes != [] {
      var t := Release(s, hashes[0]);
      ReleaseOk(env, s, hashes[0]);
      assert hashes[0] !in hashes[1..];
      ReleaseAllOk(env, t, hashes[1..]);
      assert forall h :: h in hashes <==> h == hashes[0] || h in hashes[1..];
    }
  }

  /** Rows of h removed beyond the one decrement made for it. */
  ghost function Excess(s: Store, gone: set<string>, hashes: seq<string>, h: string): int
  {
    |RowsOf(s.rows, h) * gone| - (if h in hashes then 1 else 0)
  }

  /** A bulk removal that decrements once per listed hash is safe whenever each listed hash
      loses at least one row, and then the slack of a hash grows by the rows lost beyond that. */
  lemma RemoveRowsOk(env: Env, s: Store, gone: set<string>, hashes: seq<string>)
    requires Inv(env, s)
    requires forall i, j :: 0 <= i < j < |hashes| ==> hashes[i] != hashes[j]
    requires forall h :: h in hashes ==> RowsOf(s.rows, h) * gone != {}
    ensures Inv(env, RemoveRows(s, gone, hashes))
    ensures RemoveRows(s, gone, hashes).rows == s.rows - gone
    ensures forall h :: Leak(RemoveRows(s, gone, hashes), h) == Leak(s, h) + Excess(s, gone, hashes, h)
  {
    var t := s.(rows := s.rows - gone);
    RemoveOnlyWidens(env, s, gone);
    forall h | h in hashes ensures Leak(t, h) >= 1 {
      assert HashOk(env, s, h);
    }
    ReleaseAllOk(env, t, hashes);
  }

  // ---- Every operation keeps the invariant ----------------------------------------------

  lemma WriteBlobOk(env: Env, s: Store, data: Bytes)
    requires Inv(env, s)
    ensures var w := WriteBlob(s, env.sha(data), data);
      && w.rows == s.rows && w.refs == s.refs && w.sent == s.sent
      && w.blobs.Keys == s.blobs.Keys + {env.sha(data)}
      && (forall h :: h in w.blobs ==> env.sha(w.blobs[h]) == h)
      && (forall h :: h in s.blobs ==> w.blobs[h] == s.blobs[h])
  {
    forall h | h in s.blobs ensures env.sha(s.blobs[h]) == h {
      assert HashOk(env, s, h);
    }
  }

  /** Storing a new row with its blob and one more reference. */
  lemma InsertOk(env: Env, s: Store, row: FileRow, data: Bytes)
    requires Inv(env, s) && row.id !in s.rows && row.id !in s.sent
    requires row.hash == env.sha(data) && row.size == |data|
    ensures Inv(env, Commit(s, row, data, None))
    ensures forall h :: Leak(Commit(s, row, data, None), h) == Leak(s, h)
  {
    var t := Commit(s, row, data, None);
    WriteBlobOk(env, s, data);
    forall h ensures HashOk(env, t, h) && Leak(t, h) == Leak(s, h) {
      assert HashOk(env, s, h);
      CountInsert(s.rows, row, h);
    }
    forall id | id in t.rows ensures RowOk(env, t, id) {
      if id != row.id {
        assert RowOk(env, s, id);
      }
    }
  }

  /** A replacement is an insertion followed by the single delete of the replaced row. */
  lemma ReplaceIsInsertThenDelete(env: Env, s: Store, row: FileRow, data: Bytes, prev: FileRow)
    requires Inv(env, s) && row.id !in s.rows && row.id !in s.sent
    requires prev.id in s.rows && s.rows[prev.id] == prev
    requires row.hash == env.sha(data) && row.size == |data|
    ensures var mid := Commit(s, row, data, None);
      DeleteById(mid, prev.id, prev.ns) == Ok(Commit(s, row, data, Some(prev)))
  {
    var mid := Commit(s, row, data, None);
    var t := Commit(s, row, data, Some(prev));
    InsertOk(env, s, row, data);
    assert HashOk(env, s, prev.hash) && HashOk(env, s, row.hash);
    assert prev.id in RowsOf(s.rows, prev.hash);
    assert mid.rows - {prev.id} == (s.rows - {prev.id})[row.id := row];
  }

  lemma DeleteOk(env: Env, s: Store, id: string, ns: string)
    requires Inv(env, s) && DeleteById(s, id, ns).Ok?
    ensures Inv(env, DeleteById(s, id, ns).value)
    ensures DeleteById(s, id, ns).value.rows == s.rows - {id}
    ensures forall h :: Leak(DeleteById(s, id, ns).value, h) == Leak(s, h)
  {
    var h0 := s.rows[id].hash;
    assert RowsOf(s.rows, h0) * {id} == {id};
    assert forall h :: h != h0 ==> RowsOf(s.rows, h) * {id} == {};
    RemoveRowsOk(env, s, {id}, [h0]);
    var t := s.(rows := s.rows - {id});
    assert ReleaseAll(Release(t, h0), [h0][1..]) == Release(t, h0);
    assert RemoveRows(s, {id}, [h0]) == Release(s.(rows := s.rows - {id}), h0);
  }

  lemma CommitOk(env: Env, s: Store, row: FileRow, data: Bytes, existing: Option<FileRow>)
    requires Inv(env, s) && row.id !in s.rows && row.id !in s.sent
    requires existing.Some? ==> existing.value.id in s.rows && s.rows[existing.value.id] == existing.value
    requires row.hash == env.sha(data) && row.size == |data|
    ensures Inv(env, Commit(s, row, data, existing))
    ensures forall h :: Leak(Commit(s, row, data, existing), h) == Leak(s, h)
  {
    InsertOk(env, s, row, data);
    if existing.Some? {
      var prev := existing.value;
      ReplaceIsInsertThenDelete(env, s, row, data, prev);
      DeleteOk(env, Commit(s, row, data, None), prev.id, prev.ns);
    }
  }

  /** Rows an operation deletes in bulk, and the hashes it decrements for them. */
  ghost function Gone(s: Store, op: Op): set<string>
  {
    match op
    case DeleteAll(ns, _) => Owned(s.rows, ns)
    case Expire(_, t2, _) => Expired(s.rows, t2)
    case _ => {}
  }

  ghost function Listed(op: Op): seq<string>
  {
    match op
    case DeleteAll(_, hashes) => hashes
    case Expire(_, _, hashes) => hashes
    case _ => []
  }

  lemma ListedLoseRows(s: Store, env: Env, op: Op, h: string)
    requires Possible(s, env, op) && h in Listed(op)
    ensures RowsOf(s.rows, h) * Gone(s, op) != {}
  {
    match op {
      case DeleteAll(ns, hashes) =>
        var id :| id in Owned(s.rows, ns) && s.rows[id].hash == h;
        assert id in RowsOf(s.rows, h) * Gone(s, op);
      case Expire(t1, t2, hashes) =>
        var id :| id in Expired(s.rows, t1) && s.rows[id].hash == h;
        assert id in RowsOf(s.rows, h) * Gone(s, op);
      case _ =>
    }
  }

  /** One operation keeps the invariant, and changes a hash's slack by exactly the rows it
      removes in bulk beyond the one decrement it makes for that hash. */
  lemma OpOk(env: Env, lim: Limits, s: Store, op: Op)
    requires Inv(env, s) && Possible(s, env, op)
    ensures Inv(env, Apply(env, lim, s, op))
    ensures forall h :: Leak(Apply(env, lim, s, op), h) == Leak(s, h) + Excess(s, Gone(s, op), Listed(op), h)
  {
    assert op.Upload? || op.Delete? ==> forall h :: RowsOf(s.rows, h) * Gone(s, op) == {};
    match op {
      case Upload(inp, existing, id, now) =>
        var verdict := Admit(env, lim, s, inp, existing);
        if verdict.Ok? {
          CommitOk(env, s, NewRow(env, inp, verdict.value, id, now), inp.data, existing);
        }
      case Delete(id, ns) =>
        if DeleteById(s, id, ns).Ok? {
          DeleteOk(env, s, id, ns);
        }
      case _ =>
        forall h | h in Listed(op) ensures RowsOf(s.rows, h) * Gone(s, op) != {} {
          ListedLoseRows(s, env, op, h);
        }
        RemoveRowsOk(env, s, Gone(s, op), Listed(op));
    }
  }

  lemma {:induction false} RunOk(env: Env, lim: Limits, s: Store, ops: seq<Op>)
    requires Inv(env, s) && Legal(env, lim, s, ops)
    ensures Inv(env, Run(env, lim, s, ops))
    decreases |ops|
  {
    if ops != [] {
      OpOk(env, lim, s, ops[0]);
      RunOk(env, lim, Apply(env, lim, s, ops[0]), ops[1..]);
    }
  }

  lemma EmptyOk(env: Env)
    ensures Inv(env, Empty)
  {
    forall h ensures HashOk(env, Empty, h) {
      assert RowsOf(Empty.rows, h) == {};
    }
  }

  // ---- Main results ---------------------------------------------------------------------

  /** After any sequence of uploads, deletes, bulk deletes and expiries, every file row's blob is
      on disk and holds exactly the bytes that were uploaded under that row's id. */
  lemma {:induction false} EveryFileReadable(env: Env, lim: Limits, ops: seq<Op>, id: string)
    requires Injective(env.sha) && Legal(env, lim, Empty, ops)
    requires id in Run(env, lim, Empty, ops).rows
    ensures var s := Run(env, lim, Empty, ops);
      && s.rows[id].hash in s.blobs && id in s.sent
      && s.blobs[s.rows[id].hash] == s.sent[id]
      && s.rows[id].size == |s.sent[id]|
  {
    var s := Run(env, lim, Empty, ops);
    EmptyOk(env);
    RunOk(env, lim, Empty, ops);
    assert RowOk(env, s, id);
    var h := s.rows[id].hash;
    assert HashOk(env, s, h);
    assert id in RowsOf(s.rows, h);
    assert env.sha(s.blobs[h]) == h == env.sha(s.sent[id]);
  }

  /** The recorded count of every hash equals its number of rows. */
  ghost predicate NoLeak(s: Store)
  {
    forall h :: Leak(s, h) == 0
  }

  /** In a store without leaks the blob directory is exactly the set of referenced hashes. */
  lemma NoLeakMeansNoOrphans(env: Env, s: Store, h: string)
    requires Inv(env, s) && NoLeak(s)
    ensures h in s.blobs <==> exists id :: id in s.rows && s.rows[id].hash == h
  {
    assert HashOk(env, s, h);
    assert Leak(s, h) == 0;
    if h in s.blobs {
      assert RowsOf(s.rows, h) != {};
      var id :| id in RowsOf(s.rows, h);
      assert id in s.rows && s.rows[id].hash == h;
    } else if exists id :: id in s.rows && s.rows[id].hash == h {
      var id :| id in s.rows && s.rows[id].hash == h;
      assert id in RowsOf(s.rows, h);
    }
  }

  /** An operation leaves a leak-free store leak-free exactly when its bulk removal takes at most
      one row of each hash it listed, and none of a hash it did not list. */
  lemma LeakFreeIff(env: Env, lim: Limits, s: Store, op: Op)
    requires Inv(env, s) && Possible(s, env, op) && NoLeak(s)
    ensures NoLeak(Apply(env, lim, s, op)) <==> forall h :: Excess(s, Gone(s, op), Listed(op), h) <= 0
  {
    var t := Apply(env, lim, s, op);
    OpOk(env, lim, s, op);
    forall h
      ensures Leak(t, h) == Excess(s, Gone(s, op), Listed(op), h) && Leak(t, h) >= 0
    {
      assert HashOk(env, t, h);
      assert Leak(s, h) == 0;
    }
    if NoLeak(t) {
      forall h ensures Excess(s, Gone(s, op), Listed(op), h) <= 0 {
        assert Leak(t, h) == 0;
      }
    }
  }

  /** No operation of the run deletes more rows of a hash than it decrements for it. */
  ghost predicate Sparing(env: Env, lim: Limits, s: Store, ops: seq<Op>)
    decreases |ops|
  {
    ops == [] || (
      (forall h :: Excess(s, Gone(s, ops[0]), Listed(ops[0]), h) <= 0)
      && Sparing(env, lim, Apply(env, lim, s, ops[0]), ops[1..]))
  }

  /** Slack never goes down again. */
  lemma ExcessNotNegative(env: Env, s: Store, op: Op, h: string)
    requires Possible(s, env, op)
    ensures Excess(s, Gone(s, op), Listed(op), h) >= 0
  {
    if h in Listed(op) {
      ListedLoseRows(s, env, op, h);
    }
  }

  lemma {:induction false} LeaksStay(env: Env, lim: Limits, s: Store, ops: seq<Op>, h: string)
    requires Inv(env, s) && Legal(env, lim, s, ops)
    ensures Leak(Run(env, lim, s, ops), h) >= Leak(s, h)
    decreases |ops|
  {
    if ops != [] {
      OpOk(env, lim, s, ops[0]);
      ExcessNotNegative(env, s, ops[0], h);
      LeaksStay(env, lim, Apply(env, lim, s, ops[0]), ops[1..], h);
    }
  }

  /** Over any run, every recorded count ends up equal to its number of rows exactly when each bulk
      removal took at most one row per hash: a count that once got too high stays too high. */
  lemma {:induction false} LeakFreeRunIff(env: Env, lim: Limits, s: Store, ops: seq<Op>)
    requires Inv(env, s) && NoLeak(s) && Legal(env, lim, s, ops)
    ensures NoLeak(Run(env, lim, s, ops)) <==> Sparing(env, lim, s, ops)
    decreases |ops|
  {
    if ops != [] {
      var t := Apply(env, lim, s, ops[0]);
      OpOk(env, lim, s, ops[0]);
      LeakFreeIff(env, lim, s, ops[0]);
      if NoLeak(t) {
        LeakFreeRunIff(env, lim, t, ops[1..]);
      } else {
        var h :| Leak(t, h) != 0;
        assert Leak(s, h) == 0;
        ExcessNotNegative(env, s, ops[0], h);
        LeaksStay(env, lim, t, ops[1..], h);
      }
    }
  }

  /** Expiry is safe for every store and every listing order exactly when the clock does not run
      backwards between its SELECT and its DELETE: a row that is listed but no longer deleted
      would lose its blob. */
  lemma ExpirySafeIffClockForward(env: Env, t1: int, t2: int)
    ensures t1 <= t2 <==>
      forall s: Store, hashes :: Inv(env, s) && Lists(hashes, HashesOf(s.rows, Expired(s.rows, t1))) ==>
        Inv(env, RemoveRows(s, Expired(s.rows, t2), hashes))
  {
    if t1 <= t2 {
      forall s: Store, hashes | Inv(env, s) && Lists(hashes, HashesOf(s.rows, Expired(s.rows, t1)))
        ensures Inv(env, RemoveRows(s, Expired(s.rows, t2), hashes))
      {
        OpOk(env, Limits(0, 0, 0, 0), s, Expire(t1, t2, hashes));
      }
    } else {
      var (s, hashes) := BackwardsClock(env, t1);
      var bad := RemoveRows(s, Expired(s.rows, t2), hashes);
      BackwardsClockLosesBlob(env, t1, t2);
      assert !Inv(env, bad);
    }
  }

  /** A one-file store whose file expires at t, and the hash an expiry reading t would list. */
  ghost function BackwardsClock(env: Env, t: int): (Store, seq<string>)
  {
    var row := FileRow("id", "ns", "", "f", env.sha([]), "", 0, 0, Some(t), None);
    (Commit(Empty, row, [], None), [row.hash])
  }

  lemma BackwardsClockLosesBlob(env: Env, t1: int, t2: int)
    requires t2 < t1
    ensures var (s, hashes) := BackwardsClock(env, t1);
      && Inv(env, s) && Lists(hashes, HashesOf(s.rows, Expired(s.rows, t1)))
      && !Inv(env, RemoveRows(s, Expired(s.rows, t2), hashes))
  {
    var (s, hashes) := BackwardsClock(env, t1);
    var row := s.rows["id"];
    EmptyOk(env);
    InsertOk(env, Empty, row, []);
    assert Expired(s.rows, t1) == {"id"} && Expired(s.rows, t2) == {};
    assert "id" in Expired(s.rows, t1);
    var t := RemoveRows(s, {}, hashes);
    assert s.rows - {} == s.rows;
    assert ReleaseAll(Release(s, row.hash), hashes[1..]) == Release(s, row.hash);
    assert row.hash !in t.refs;
    assert RowsOf(t.rows, row.hash) == {"id"};
    assert !HashOk(env, t, row.hash);
  }

  // ---- Quotas ---------------------------------------------------------------------------

  ghost predicate NamespaceOk(lim: Limits, rows: map<string, FileRow>, ns: string)
  {
    FileCount(rows, ns) <= lim.maxFiles && TotalBytes(rows, ns) <= lim.maxStorage
  }

  ghost predicate OnePerPath(rows: map<string, FileRow>)
  {
    forall i, j :: i in rows && j in rows && i != j ==> !AtPath(rows[i], rows[j].ns, rows[j].folder, rows[j].name)
  }

  ghost predicate WithinQuota(lim: Limits, rows: map<string, FileRow>)
  {
    && (forall id :: id in rows ==> rows[id].id == id)
    && (forall ns {:trigger NamespaceOk(lim, rows, ns)} :: NamespaceOk(lim, rows, ns))
    && OnePerPath(rows)
  }

  lemma SizesInsert(rows: map<string, FileRow>, r: FileRow, ns: string)
    requires r.id !in rows
    ensures FileCount(rows[r.id := r], ns) == FileCount(rows, ns) + (if r.ns == ns then 1 else 0)
    ensures TotalBytes(rows[r.id := r], ns) == TotalBytes(rows, ns) + (if r.ns == ns then r.size else 0)
  {
    var m := Sizes(rows, ns);
    if r.ns == ns {
      assert Sizes(rows[r.id := r], ns) == m[r.id := r.size];
      TotalUpdate(m, r.id, r.size);
    } else {
      assert Sizes(rows[r.id := r], ns) == m;
    }
  }

  lemma {:induction false} SizesShrink(m: map<string, nat>, n: map<string, nat>)
    requires forall id :: id in n ==> id in m && m[id] == n[id]
    ensures |n| <= |m| && Total(n) <= Total(m)
    decreases |n|
  {
    if n != map[] {
      var id :| id in n;
      TotalSplit(m, id);
      TotalSplit(n, id);
      SizesShrink(m - {id}, n - {id});
    }
  }

  lemma RemovalKeepsQuota(lim: Limits, rows: map<string, FileRow>, gone: set<string>)
    requires WithinQuota(lim, rows)
    ensures WithinQuota(lim, rows - gone)
  {
    forall ns ensures NamespaceOk(lim, rows - gone, ns) {
      assert NamespaceOk(lim, rows, ns);
      SizesShrink(Sizes(rows, ns), Sizes(rows - gone, ns));
    }
  }

  /** The rows with the replaced file, if any, taken out. */
  function Without(rows: map<string, FileRow>, existing: Option<FileRow>): map<string, FileRow>
  {
    if existing.Some? then rows - {existing.value.id} else rows
  }

  lemma WithoutSizes(rows: map<string, FileRow>, existing: Option<FileRow>, ns: string)
    requires existing.Some? ==> existing.value.id in rows && rows[existing.value.id] == existing.value
    ensures FileCount(Without(rows, existing), ns) ==
      FileCount(rows, ns) - (if existing.Some? && existing.value.ns == ns then 1 else 0)
    ensures TotalBytes(Without(rows, existing), ns) ==
      TotalBytes(rows, ns) - (if existing.Some? && existing.value.ns == ns then existing.value.size else 0)
  {
    if existing.Some? {
      var prev := existing.value;
      var base := Without(rows, existing);
      SizesInsert(base, prev, ns);
      assert base[prev.id := prev] == rows;
    }
  }

  /** A row put in place of whatever was at its path leaves at most one row there. */
  lemma PutKeepsPaths(rows: map<string, FileRow>, row: FileRow, existing: Option<FileRow>)
    requires OnePerPath(rows) && row.id !in rows
    requires forall id :: id in rows ==> rows[id].id == id
    requires IsLatest(rows, row.ns, row.folder, row.name, existing)
    ensures OnePerPath(Without(rows, existing)[row.id := row])
  {
  }

  /** What an admitted upload leaves in every namespace, the replaced file first subtracted. */
  lemma PutKeepsQuota(lim: Limits, rows: map<string, FileRow>, row: FileRow, existing: Option<FileRow>)
    requires WithinQuota(lim, rows) && row.id !in rows
    requires IsLatest(rows, row.ns, row.folder, row.name, existing)
    requires FileCount(rows, row.ns) - (if existing.Some? then 1 else 0) < lim.maxFiles
    requires TotalBytes(rows, row.ns) - (if existing.Some? then existing.value.size else 0) + row.size <= lim.maxStorage
    ensures WithinQuota(lim, Without(rows, existing)[row.id := row])
  {
    var base := Without(rows, existing);
    var put := base[row.id := row];
    forall ns ensures NamespaceOk(lim, put, ns) {
      assert NamespaceOk(lim, rows, ns);
      SizesInsert(base, row, ns);
      WithoutSizes(rows, existing, ns);
    }
    PutKeepsPaths(rows, row, existing);
  }

  lemma AdmitBounds(env: Env, lim: Limits, s: Store, inp: UploadInput, existing: Option<FileRow>)
    requires Admit(env, lim, s, inp, existing).Ok?
    ensures FileCount(s.rows, inp.ns) - (if existing.Some? then 1 else 0) < lim.maxFiles
    ensures TotalBytes(s.rows, inp.ns) - (if existing.Some? then existing.value.size else 0) + |inp.data| <= lim.maxStorage
  {
  }

  lemma CommitRows(s: Store, row: FileRow, data: Bytes, existing: Option<FileRow>)
    ensures Commit(s, row, data, existing).rows == Without(s.rows, existing)[row.id := row]
    ensures Commit(s, row, data, existing).sent == s.sent[row.id := data]
  {
  }

  lemma UploadKeepsQuota(env: Env, lim: Limits, s: Store, op: Op)
    requires op.Upload? && WithinQuota(lim, s.rows) && Possible(s, env, op)
    ensures WithinQuota(lim, Apply(env, lim, s, op).rows)
  {
    var verdict := Admit(env, lim, s, op.inp, op.existing);
    if verdict.Ok? {
      var row := NewRow(env, op.inp, verdict.value, op.id, op.now);
      AdmitBounds(env, lim, s, op.inp, op.existing);
      CommitRows(s, row, op.inp.data, op.existing);
      PutKeepsQuota(lim, s.rows, row, op.existing);
    }
  }

  lemma QuotaStep(env: Env, lim: Limits, s: Store, op: Op)
    requires WithinQuota(lim, s.rows) && Possible(s, env, op)
    ensures WithinQuota(lim, Apply(env, lim, s, op).rows)
  {
    match op
    case Upload(_, _, _, _) => UploadKeepsQuota(env, lim, s, op);
    case Delete(id, ns) => RemovalKeepsQuota(lim, s.rows, {id});
    case _ =>
      ReleaseAllRows(s.(rows := s.rows - Gone(s, op)), Listed(op));
      RemovalKeepsQuota(lim, s.rows, Gone(s, op));
  }

  /** Every run keeps every namespace within its file and byte limits, with at most one file at
      each folder and name. */
  lemma {:induction false} QuotasHold(env: Env, lim: Limits, s: Store, ops: seq<Op>)
    requires WithinQuota(lim, s.rows) && Legal(env, lim, s, ops)
    ensures WithinQuota(lim, Run(env, lim, s, ops).rows)
    decreases |ops|
  {
    if ops != [] {
      QuotaStep(env, lim, s, ops[0]);
      QuotasHold(env, lim, Apply(env, lim, s, ops[0]), ops[1..]);
    }
  }

  /** Counts, rows and blobs are consistent, and every namespace is within its limits. */
  ghost predicate Good(env: Env, lim: Limits, s: Store)
  {
    Inv(env, s) && WithinQuota(lim, s.rows)
  }

  lemma GoodStep(env: Env, lim: Limits, s: Store, op: Op)
    requires Good(env, lim, s) && Possible(s, env, op)
    ensures Good(env, lim, Apply(env, lim, s, op))
  {
    OpOk(env, lim, s, op);
    QuotaStep(env, lim, s, op);
  }

  lemma {:induction false} ReleaseAllRows(s: Store, hashes: seq<string>)
    ensures ReleaseAll(s, hashes).rows == s.rows
    decreases |hashes|
  {
    if hashes != [] {
      ReleaseAllRows(Release(s, hashes[0]), hashes[1..]);
    }
  }

  // ---- What is refused, and what is left alone ------------------------------------------

  /** What each error reports. */
  ghost predicate Violates(
    env: Env, lim: Limits, rows: map<string, FileRow>, inp: UploadInput, existing: Option<FileRow>, e: UploadError)
  {
    match e
    case FolderInvalid => env.normFolder(inp.folder).None?
    case InvalidConflict => inp.conflictMode != "" && inp.conflictMode != "replace" && inp.conflictMode != "error"
    case FileTooLarge => |inp.data| > lim.maxFileSize
    case MetadataTooLarge => inp.metadata.Some? && |inp.metadata.value| > lim.maxMetadata
    case MimeMismatch =>
      env.sniff(inp.data) != "" && inp.contentType != "" && env.sniff(inp.data) != inp.contentType
    case MimeNotAllowed => !env.allowed(if inp.contentType == "" then env.sniff(inp.data) else inp.contentType)
    case Conflict => inp.conflictMode == "error" && existing.Some?
    case TooManyFiles => FileCount(rows, inp.ns) >= lim.maxFiles + if existing.Some? then 1 else 0
    case StorageQuota =>
      TotalBytes(rows, inp.ns) + |inp.data| > lim.maxStorage + if existing.Some? then existing.value.size else 0
  }

  /** The place of a check among the others. */
  function Turn(e: UploadError): nat
  {
    match e
    case FolderInvalid => 1
    case InvalidConflict => 2
    case FileTooLarge => 3
    case MetadataTooLarge => 4
    case MimeMismatch => 5
    case MimeNotAllowed => 6
    case Conflict => 7
    case TooManyFiles => 8
    case StorageQuota => 9
  }

  /** An upload is admitted exactly when it violates nothing; otherwise the error is the first of
      the checks that it violates. */
  lemma AdmittedIff(env: Env, lim: Limits, s: Store, inp: UploadInput, existing: Option<FileRow>)
    ensures var r := Admit(env, lim, s, inp, existing);
      && (r.Ok? <==> forall e :: !Violates(env, lim, s.rows, inp, existing, e))
      && (r.Ok? ==> r.value == if inp.contentType == "" then env.sniff(inp.data) else inp.contentType)
      && forall e :: r == Err(e) <==>
           Violates(env, lim, s.rows, inp, existing, e) &&
           forall other :: Turn(other) < Turn(e) ==> !Violates(env, lim, s.rows, inp, existing, other)
  {
    var r := Admit(env, lim, s, inp, existing);
    if r.Err? {
      assert Violates(env, lim, s.rows, inp, existing, r.error);
      NothingBefore(env, lim, s, inp, existing);
      forall e ensures r == Err(e) <==>
        Violates(env, lim, s.rows, inp, existing, e) &&
        forall other :: Turn(other) < Turn(e) ==> !Violates(env, lim, s.rows, inp, existing, other)
      {
        TurnsDiffer(r.error, e);
      }
    } else {
      forall e ensures !Violates(env, lim, s.rows, inp, existing, e) {}
    }
  }

  lemma TurnsDiffer(e: UploadError, f: UploadError)
    ensures e == f || Turn(e) < Turn(f) || Turn(f) < Turn(e)
  {
  }

  lemma NothingBefore(env: Env, lim: Limits, s: Store, inp: UploadInput, existing: Option<FileRow>)
    requires Admit(env, lim, s, inp, existing).Err?
    ensures forall other :: Turn(other) < Turn(Admit(env, lim, s, inp, existing).error) ==>
      !Violates(env, lim, s.rows, inp, existing, other)
  {
  }

  /** The count of a hash goes down by one if it is listed, and stays as it is if not. */
  lemma CountAfterRemoval(env: Env, s: Store, gone: set<string>, hashes: seq<string>, h: string)
    requires Inv(env, s)
    requires forall i, j :: 0 <= i < j < |hashes| ==> hashes[i] != hashes[j]
    requires forall k :: k in hashes ==> RowsOf(s.rows, k) * gone != {}
    ensures RefCount(RemoveRows(s, gone, hashes), h) == RefCount(s, h) - if h in hashes then 1 else 0
  {
    var t := RemoveRows(s, gone, hashes);
    RemoveRowsOk(env, s, gone, hashes);
    CountRemove(s.rows, gone, h);
    assert Leak(t, h) == Leak(s, h) + Excess(s, gone, hashes, h);
  }

  /** A bulk removal takes one reference off each hash it lists. */
  lemma BulkCounts(env: Env, lim: Limits, s: Store, op: Op)
    requires Inv(env, s) && Possible(s, env, op) && (op.DeleteAll? || op.Expire?)
    ensures forall h :: RefCount(Apply(env, lim, s, op), h) == RefCount(s, h) - if h in Listed(op) then 1 else 0
  {
    forall k | k in Listed(op) ensures RowsOf(s.rows, k) * Gone(s, op) != {} {
      ListedLoseRows(s, env, op, k);
    }
    forall h ensures RefCount(Apply(env, lim, s, op), h) == RefCount(s, h) - if h in Listed(op) then 1 else 0 {
      CountAfterRemoval(env, s, Gone(s, op), Listed(op), h);
    }
  }

  /** Deleting one file takes one reference off its hash. */
  lemma CountAfterDelete(env: Env, s: Store, id: string, h: string)
    requires Inv(env, s) && id in s.rows
    ensures RefCount(Release(s.(rows := s.rows - {id}), s.rows[id].hash), h) ==
      RefCount(s, h) - if h == s.rows[id].hash then 1 else 0
  {
    var h0 := s.rows[id].hash;
    assert HashOk(env, s, h0) && HashOk(env, s, h);
    assert id in RowsOf(s.rows, h0);
  }

  /** The namespace an operation is about; an expiry is about none. */
  function Concerns(op: Op): Option<string>
  {
    match op
    case Upload(inp, _, _, _) => Some(inp.ns)
    case Delete(_, ns) => Some(ns)
    case DeleteAll(ns, _) => Some(ns)
    case Expire(_, _, _) => None
  }

  /** An operation on one namespace leaves every row of another as it was, and an expiry every row
      that has no expiry or a later one. */
  lemma OtherRowsStay(env: Env, lim: Limits, s: Store, op: Op, id: string)
    requires Possible(s, env, op) && id in s.rows
    requires match Concerns(op)
      case Some(ns) => s.rows[id].ns != ns
      case None => s.rows[id].expiresAt.None? || s.rows[id].expiresAt.value > op.t2
    ensures id in Apply(env, lim, s, op).rows && Apply(env, lim, s, op).rows[id] == s.rows[id]
  {
    match op
    case Upload(inp, existing, newId, now) =>
      var verdict := Admit(env, lim, s, inp, existing);
      if verdict.Ok? {
        CommitRows(s, NewRow(env, inp, verdict.value, newId, now), inp.data, existing);
      }
    case Delete(_, _) =>
    case _ => ReleaseAllRows(s.(rows := s.rows - Gone(s, op)), Listed(op));
  }

  /** No operation of the run is about this row's namespace, or is an expiry it falls under. */
  ghost predicate Apart(r: FileRow, ops: seq<Op>)
  {
    forall op :: op in ops ==>
      match Concerns(op)
      case Some(ns) => ns != r.ns
      case None => r.expiresAt.None? || r.expiresAt.value > op.t2
  }

  /** Over any run of such operations the row and its bytes stay what they were. */
  lemma {:induction false} NamespacesApart(env: Env, lim: Limits, s: Store, ops: seq<Op>, id: string)
    requires Inv(env, s) && Injective(env.sha) && Legal(env, lim, s, ops) && id in s.rows && Apart(s.rows[id], ops)
    ensures var t := Run(env, lim, s, ops);
      && id in t.rows && t.rows[id] == s.rows[id]
      && t.rows[id].hash in t.blobs && s.rows[id].hash in s.blobs
      && t.blobs[t.rows[id].hash] == s.blobs[s.rows[id].hash]
    decreases |ops|
  {
    if ops == [] {
      BlobOfRow(env, s, id);
    } else {
      var t := Apply(env, lim, s, ops[0]);
      OtherRowsStay(env, lim, s, ops[0], id);
      OpOk(env, lim, s, ops[0]);
      BlobOfRow(env, s, id);
      BlobOfRow(env, t, id);
      NamespacesApart(env, lim, t, ops[1..], id);
    }
  }

  /** In a consistent store a row's blob is there, under the hash of its own bytes. */
  lemma BlobOfRow(env: Env, s: Store, id: string)
    requires Inv(env, s) && id in s.rows
    ensures s.rows[id].hash in s.blobs && env.sha(s.blobs[s.rows[id].hash]) == s.rows[id].hash
  {
    var h := s.rows[id].hash;
    assert HashOk(env, s, h);
    assert id in RowsOf(s.rows, h);
  }

  /** Once a namespace is emptied none of its rows is left, and after an expiry no row that had
      expired is. */
  lemma RemovedRowsGo(env: Env, lim: Limits, s: Store, op: Op, id: string)
    requires id in s.rows
    requires match op
      case DeleteAll(ns, _) => s.rows[id].ns == ns
      case Expire(_, t2, _) => s.rows[id].expiresAt.Some? && s.rows[id].expiresAt.value <= t2
      case Delete(gone, ns) => gone == id && s.rows[id].ns == ns
      case Upload(_, _, _, _) => false
    ensures id !in Apply(env, lim, s, op).rows
  {
    if !op.Delete? {
      ReleaseAllRows(s.(rows := s.rows - Gone(s, op)), Listed(op));
    }
  }

  // ---- Repeating an upload --------------------------------------------------------------

  /** A second upload of the same input in replace mode meets the same checks, and is let in. */
  lemma RepeatIsAdmitted(
    env: Env, lim: Limits, s: Store, t: Store, inp: UploadInput, existing: Option<FileRow>, row: FileRow)
    requires Admit(env, lim, s, inp, existing).Ok? && inp.conflictMode != "error"
    requires WithinQuota(lim, t.rows) && row.id in t.rows && t.rows[row.id] == row
    requires row.ns == inp.ns && row.size == |inp.data|
    ensures Admit(env, lim, t, inp, Some(row)) == Admit(env, lim, s, inp, existing)
  {
    assert NamespaceOk(lim, t.rows, inp.ns);
    WithoutSizes(t.rows, Some(row), inp.ns);
  }

  /** What an admitted upload leaves behind. */
  lemma UploadedRow(env: Env, lim: Limits, s: Store, op: Op)
    requires Good(env, lim, s) && Possible(s, env, op)
    requires op.Upload? && Admit(env, lim, s, op.inp, op.existing).Ok?
    ensures var t := Apply(env, lim, s, op);
      var row := NewRow(env, op.inp, Admit(env, lim, s, op.inp, op.existing).value, op.id, op.now);
      && Good(env, lim, t)
      && t.rows == Without(s.rows, op.existing)[op.id := row] && t.sent == s.sent[op.id := op.inp.data]
  {
    GoodStep(env, lim, s, op);
    CommitRows(s, NewRow(env, op.inp, Admit(env, lim, s, op.inp, op.existing).value, op.id, op.now),
               op.inp.data, op.existing);
  }

  /** Uploading the same input again in replace mode writes no blob and changes nothing but the
      row's id and upload time. */
  lemma RepeatedUploadIsIdempotent(env: Env, lim: Limits, s: Store, op: Op, id: string, now: int)
    requires Good(env, lim, s) && Possible(s, env, op)
    requires op.Upload? && op.inp.conflictMode != "error" && Admit(env, lim, s, op.inp, op.existing).Ok?
    requires id != op.id && id !in s.rows && id !in s.sent
    ensures var t := Apply(env, lim, s, op);
      && op.id in t.rows
      && var again := Upload(op.inp, Some(t.rows[op.id]), id, now);
        && Possible(t, env, again)
        && var u := Apply(env, lim, t, again);
          && u.rows == (t.rows - {op.id})[id := t.rows[op.id].(id := id, uploadedAt := now)]
          && u.refs == t.refs && u.blobs == t.blobs
  {
    var t := Apply(env, lim, s, op);
    var mime := Admit(env, lim, s, op.inp, op.existing).value;
    var row := NewRow(env, op.inp, mime, op.id, op.now);
    UploadedRow(env, lim, s, op);
    OneRowIsLatest(t, row);
    RepeatIsAdmitted(env, lim, s, t, op.inp, op.existing, row);
    SwapSameContent(env, t, row, NewRow(env, op.inp, mime, id, now), op.inp.data);
  }

  /** Replacing a row by one with the same content leaves counts and blobs as they were. */
  lemma SwapSameContent(env: Env, s: Store, prev: FileRow, row: FileRow, data: Bytes)
    requires Inv(env, s) && prev.id in s.rows && s.rows[prev.id] == prev && row.hash == prev.hash
    ensures Commit(s, row, data, Some(prev)).rows == (s.rows - {prev.id})[row.id := row]
    ensures Commit(s, row, data, Some(prev)).refs == s.refs
    ensures Commit(s, row, data, Some(prev)).blobs == s.blobs
  {
    assert HashOk(env, s, row.hash);
    assert prev.id in RowsOf(s.rows, row.hash);
    assert Incr(s.refs, row.hash)[row.hash := s.refs[row.hash]] == s.refs;
  }

  lemma OneRowIsLatest(s: Store, r: FileRow)
    requires OnePerPath(s.rows) && r.id in s.rows && s.rows[r.id] == r
    ensures IsLatest(s.rows, r.ns, r.folder, r.name, Some(r))
  {
    forall id | id in s.rows && AtPath(s.rows[id], r.ns, r.folder, r.name) ensures NotBefore(r, s.rows[id]) {
      if id == r.id {
        Strings.LeqTotal(r.id, r.id);
      }
    }
  }
}
