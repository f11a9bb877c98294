/** The request handlers of src/server.c, on the file objects and the hash table in memory. Each is
    proved to do, in place, what Store.dfy says its request does; ServeRun at the end puts steps
    together, so what Runs.dfy proves of every run holds of the objects. A file's mutex is taken when
    the file is in `busy`; a handler runs undisturbed. */
module Servers {
  import opened Words
  import opened Paths
  import opened Chains
  import opened TableMap
  import opened HashTables
  import opened Arrays
  import opened Streams
  import opened Store
  import opened Accounts
  import opened Eviction
  import opened FileStorages
  import opened EvictPlans
  import opened Runs

  ghost function BusyPaths(h: map<Path, FileData>, busy: set<FileData>): set<Path> {
    set p | p in h && h[p] in busy
  }

  // ------------------------------------------------------------------------ about the storage

  // Only known paths are stored.
  lemma StoredPathsAreKnown(s: FileStorage)
    requires s.Valid()
    ensures forall p | p in s.handles :: p in s.universe
  {
    var t := s.table.Contents();
    forall p | p in s.handles ensures p in s.universe {
      var b := Bucket(PathTable.PathHash, |t|, p);
      var chain := t[b];
      assert StackAt(PathTable.PathHash, t, p) == [s.handles[p]];
      if i :| 0 <= i < |chain| && chain[i].key == p {
        assert p in Share(PathTable.PathHash, |t|, s.universe, b);
      } else {
        StackEmpty(chain, p);
      }
    }
  }

  lemma StoredFile(s: FileStorage, p: Path)
    requires s.Valid() && p in s.handles
    ensures s.handles[p].path == p && p in s.Abs().files && s.Abs().files[p] == FileOf(s.handles[p])
  {
  }

  lemma StoredFiles(s: FileStorage)
    requires s.Valid()
    ensures forall p | p in s.handles :: p in s.Abs().files && s.Abs().files[p].data == s.handles[p].data
  {
  }

  lemma RemoveAllThenOne(s: Storage, done: seq<Path>, p: Path)
    ensures RemoveAll(s, done + [p]) == Store.RemoveFile(RemoveAll(s, done), p)
    decreases |done|
  {
    if done == [] {
      assert [] + [p] == [p] && [p][1..] == [];
    } else {
      assert (done + [p])[0] == done[0] && (done + [p])[1..] == done[1..] + [p];
      RemoveAllThenOne(Store.RemoveFile(s, done[0]), done[1..], p);
    }
  }

  lemma TouchAllThenOne(s: Storage, done: seq<Path>, p: Path)
    ensures TouchAll(s, done + [p]) == Touch(TouchAll(s, done), p)
    decreases |done|
  {
    if done == [] {
      assert [] + [p] == [p] && [p][1..] == [];
    } else {
      assert (done + [p])[0] == done[0] && (done + [p])[1..] == done[1..] + [p];
      TouchAllThenOne(Touch(s, done[0]), done[1..], p);
    }
  }

  // The mark -2 that an evicted file gets goes with the file.
  lemma RemoveMarked(s: Storage, p: Path, f: File)
    requires p in s.files && |f.data| == |s.files[p].data|
    ensures Store.RemoveFile(s.(files := s.files[p := f]), p) == Store.RemoveFile(s, p)
  {
  }

  // ------------------------------------------------------------------------------- server_evict

  const EVICTED: int := -2

  // The end of the loop body of server_evict.
  method EvictOne(s: FileStorage, file: FileData)
    requires s.Valid() && file.path in s.handles && s.handles[file.path] == file && file.path in s.universe
    modifies s, s.table, s.table.table, s.table.Repr, s.handles.Values`info, file`client
    ensures s.Valid() && s.table.Repr == old(s.table.Repr)
    ensures s.handles == old(s.handles) - {file.path}
    ensures s.Abs() == Store.RemoveFile(old(s.Abs()), file.path)
  {
    hide FileStorage.TableHolds, FilesOf, SizeT, UInt;
    RemoveMarked(s.Abs(), file.path, FileOf(file).(client := EVICTED));
    file.client := EVICTED;
    FilesChangeAt(old(FilesOf(s.handles)), s.handles, file.path);
    var ok := s.RemoveFile(file.path);
  }

  // How far the loop is: the files taken, and the same loop on what is left.
  ghost predicate Progress(files: Files, client: nat, busy: set<Path>, plan: seq<Path>, need: nat,
                           done: seq<Path>, rest: seq<Path>, left: nat) {
    && done + Victims(files, client, busy, rest, left) == Victims(files, client, busy, plan, need)
    && StillNeeded(files, client, busy, rest, left) == StillNeeded(files, client, busy, plan, need)
  }

  lemma ProgressStep(files: Files, client: nat, busy: set<Path>, plan: seq<Path>, need: nat,
                     done: seq<Path>, rest: seq<Path>, left: nat)
    requires Progress(files, client, busy, plan, need, done, rest, left) && left > 0 && rest != []
    ensures if Eligible(files, client, busy, rest[0])
            then Progress(files, client, busy, plan, need, done + [rest[0]], rest[1..], Rest(left, Size(files, rest[0])))
            else Progress(files, client, busy, plan, need, done, rest[1..], left)
  {
  }

  // After `done` are taken, what is stored is as it was at first, and the entries still to be
  // looked at are stored.
  ghost predicate Remaining(first: Storage, handles: map<Path, FileData>, now: Storage, h: map<Path, FileData>,
                            done: seq<Path>, entries: seq<PlanEntry>) {
    && now == RemoveAll(first, done)
    && (forall p | p in done :: p in first.files)
    && (forall p | p in h :: p in handles && h[p] == handles[p])
    && (forall p | p in h :: p in first.files && p in now.files && now.files[p] == first.files[p])
    && (forall e | e in entries :: e.path in h && e.file == h[e.path] && e.size == |first.files[e.path].data|)
  }

  lemma RemainingStep(first: Storage, handles: map<Path, FileData>, now: Storage, h: map<Path, FileData>,
                      done: seq<Path>, entries: seq<PlanEntry>)
    requires Remaining(first, handles, now, h, done, entries) && entries != [] && Distinct(PlanPaths(entries))
    ensures var p := entries[0].path;
            && Remaining(first, handles, now, h, done, entries[1..])
            && Remaining(first, handles, Store.RemoveFile(now, p), h - {p}, done + [p], entries[1..])
  {
    var p := entries[0].path;
    assert entries[0] in entries;
    RemoveAllThenOne(first, done, p);
    var paths := PlanPaths(entries);
    forall i | 0 <= i < |entries[1..]| ensures entries[1..][i].path != p {
      assert paths[0] != paths[i + 1];
    }
  }

  lemma SendOneBack(files: Files, done: seq<Path>, p: Path)
    requires p in files && forall q | q in done :: q in files
    ensures EvictFrames(Parcels(files, done + [p])) ==
            EvictFrames(Parcels(files, done)) + (EncodeWord(SAPI_EVICT) + SendParcel(Parcel(p, files[p].data)))
  {
    assert Parcels(files, done + [p]) == Parcels(files, done) + [Parcel(p, files[p].data)];
    EvictFramesAppend(Parcels(files, done), Parcel(p, files[p].data));
  }

  // What one eviction works from: the storage at its start, and the plan.
  datatype Job = Job(first: Storage, handles: map<Path, FileData>, client: nat, busy: set<FileData>,
                     need: nat, sendBack: bool, entries: seq<PlanEntry>)
  {
    ghost function Order(): seq<Path> { PlanPaths(entries) }

    ghost function Taken(): seq<Path> { Victims(first.files, client, BusyPaths(handles, busy), Order(), need) }

    ghost function Left(): nat { StillNeeded(first.files, client, BusyPaths(handles, busy), Order(), need) }

    ghost function Sent(paths: seq<Path>): seq<Byte>
      requires forall p | p in paths :: p in first.files
    {
      if sendBack then EvictFrames(Parcels(first.files, paths)) else []
    }
  }

  // The state of the loop before it looks at entry i.
  ghost predicate LoopAt(j: Job, i: nat, now: Storage, h: map<Path, FileData>, done: seq<Path>, left: nat, sent: seq<Byte>) {
    && i <= |j.entries|
    && Remaining(j.first, j.handles, now, h, done, j.entries[i..])
    && Progress(j.first.files, j.client, BusyPaths(j.handles, j.busy), j.Order(), j.need, done, j.Order()[i..], left)
    && sent == j.Sent(done)
  }

  lemma LoopStart(s: FileStorage, j: Job)
    requires j.first == s.Abs() && j.handles == s.handles && Current(s.handles, j.entries)
    ensures LoopAt(j, 0, s.Abs(), s.handles, [], j.need, [])
  {
  }

  lemma LoopEnd(j: Job, i: nat, now: Storage, h: map<Path, FileData>, done: seq<Path>, left: nat, sent: seq<Byte>)
    requires LoopAt(j, i, now, h, done, left, sent) && (left == 0 || i == |j.entries|)
    ensures done == j.Taken() && (forall p | p in done :: p in j.first.files)
    ensures now == RemoveAll(j.first, done) && left == j.Left() && sent == j.Sent(done)
    ensures forall p | p in h :: p in j.handles && h[p] == j.handles[p]
  {
  }

  // The file of entry i may be taken and is, or it may not and is passed over.
  lemma LoopStep(j: Job, i: nat, now: Storage, h: map<Path, FileData>, done: seq<Path>, left: nat, sent: seq<Byte>)
    requires LoopAt(j, i, now, h, done, left, sent) && left > 0 && i < |j.entries| && Distinct(j.Order())
    ensures h.Values <= j.handles.Values
    ensures var e := j.entries[i];
            && e.path in h && e.path in j.handles && e.file == h[e.path] == j.handles[e.path] && e.path in now.files
            && var f := now.files[e.path];
            && (if e.file !in j.busy && (f.client == FREE || f.client == j.client)
                then LoopAt(j, i + 1, Store.RemoveFile(now, e.path), h - {e.path}, done + [e.path], Rest(left, |f.data|),
                            sent + (if j.sendBack then EncodeWord(SAPI_EVICT) + SendParcel(Parcel(e.path, f.data)) else []))
                else LoopAt(j, i + 1, now, h, done, left, sent))
  {
    hide Progress, Victims, StillNeeded, RemoveAll, EncodeWord, SendParcel, EvictFrames;
    var e, b := j.entries[i], BusyPaths(j.handles, j.busy);
    assert e in j.entries[i..];
    assert j.entries[i..][1..] == j.entries[i + 1..] && j.Order()[i..][1..] == j.Order()[i + 1..];
    assert PlanPaths(j.entries[i..]) == j.Order()[i..];
    ProgressStep(j.first.files, j.client, b, j.Order(), j.need, done, j.Order()[i..], left);
    RemainingStep(j.first, j.handles, now, h, done, j.entries[i..]);
    SendOneBack(j.first.files, done, e.path);
  }

  // The body of that loop, from the moment the mutex is taken.
  method EvictNext(s: FileStorage, file: FileData, client: nat, need: nat, sendBack: bool)
    returns (taken: bool, left: nat, sent: seq<Byte>)
    requires s.Valid() && file.path in s.handles && s.handles[file.path] == file && file.path in s.universe
    modifies s, s.table, s.table.table, s.table.Repr, s.handles.Values`info, file`client
    ensures s.Valid() && s.table.Repr == old(s.table.Repr)
    ensures taken <==> old(file.client) == FREE || old(file.client) == client
    ensures s.handles == if taken then old(s.handles) - {file.path} else old(s.handles)
    ensures s.Abs() == if taken then Store.RemoveFile(old(s.Abs()), file.path) else old(s.Abs())
    ensures left == if taken then Rest(need, |file.data|) else need
    ensures sent == if taken && sendBack then EncodeWord(SAPI_EVICT) + SendParcel(Parcel(file.path, file.data)) else []
  {
    hide FileStorage.Valid, FilesOf;
    if file.client != FREE && file.client != client {
      return false, need, [];
    }
    sent := if sendBack then EncodeWord(SAPI_EVICT) + (SendPath(file.path) + SendData(file.data)) else [];
    left := if |file.data| > need then 0 else need - |file.data|;
    EvictOne(s, file);
    taken := true;
  }

  // One round of that loop.
  method EvictRound(s: FileStorage, client: nat, sendBack: bool, busy: set<FileData>, entry: PlanEntry, need: nat,
                    ghost j: Job, ghost i: nat, ghost done: seq<Path>, ghost soFar: seq<Byte>)
    returns (left: nat, frame: seq<Byte>, ghost done': seq<Path>)
    requires s.Valid() && LoopAt(j, i, s.Abs(), s.handles, done, need, soFar)
    requires need > 0 && i < |j.entries| && j.entries[i] == entry && Distinct(j.Order())
    requires j.client == client && j.busy == busy && j.sendBack == sendBack
    requires forall p | p in j.handles :: p in s.universe
    modifies s, s.table, s.table.table, s.table.Repr, s.handles.Values`info, s.handles.Values`client
    ensures s.Valid() && s.table.Repr == old(s.table.Repr) && s.handles.Values <= old(s.handles.Values)
    ensures LoopAt(j, i + 1, s.Abs(), s.handles, done', left, soFar + frame)
  {
    hide FileStorage.Valid, FileStorage.Abs, FilesOf, Store.RemoveFile, LoopAt, Distinct, EncodeWord, SendParcel;
    LoopStep(j, i, s.Abs(), s.handles, done, need, soFar);
    StoredFile(s, entry.path);
    assert soFar + [] == soFar;
    if entry.file in busy {
      return need, [], done;
    }
    var taken;
    taken, left, frame := EvictNext(s, entry.file, client, need, sendBack);
    done' := if taken then done + [entry.path] else done;
  }

  // The loop of server_evict.
  method EvictLoop(s: FileStorage, client: nat, need: nat, sendBack: bool, busy: set<FileData>, plan: UArr<PlanEntry>)
    returns (left: nat, sent: seq<Byte>)
    requires s.Valid() && plan.Valid() && plan.elementCount == plan.data.Length
    requires Current(s.handles, plan.Elements()) && Distinct(PlanPaths(plan.Elements()))
    requires forall p | p in s.handles :: p in s.universe
    modifies s, s.table, s.table.table, s.table.Repr, s.handles.Values`info, s.handles.Values`client
    ensures s.Valid() && s.table.Repr == old(s.table.Repr)
    ensures forall p | p in s.handles :: p in old(s.handles) && s.handles[p] == old(s.handles)[p]
    ensures var j := Job(old(s.Abs()), old(s.handles), client, busy, need, sendBack, old(plan.Elements()));
            && s.Abs() == RemoveAll(j.first, j.Taken()) && left == j.Left()
            && (forall p | p in j.Taken() :: p in j.first.files) && sent == j.Sent(j.Taken())
  {
    hide FileStorage.Valid, FileStorage.Abs, FilesOf, RemoveAll, LoopAt, Distinct, Current, SortedBy, Job.Taken, Job.Left, Job.Sent;
    ghost var j := Job(s.Abs(), s.handles, client, busy, need, sendBack, plan.Elements());
    ghost var done := [];
    LoopStart(s, j);
    left, sent := need, [];
    var i := 0;
    while left > 0 && i < plan.data.Length
      invariant 0 <= i <= plan.data.Length && plan.data[..] == j.entries
      invariant s.Valid() && s.table.Repr == old(s.table.Repr) && s.handles.Values <= old(s.handles.Values)
      invariant LoopAt(j, i, s.Abs(), s.handles, done, left, sent)
      decreases plan.data.Length - i
    {
      var frame;
      left, frame, done := EvictRound(s, client, sendBack, busy, plan.data[i], left, j, i, done, sent);
      sent, i := sent + frame, i + 1;
    }
    LoopEnd(j, i, s.Abs(), s.handles, done, left, sent);
  }

  // The answers of the loop, put together, are those of the eviction.
  lemma JobIsEvict(j: Job)
    requires Bytes(j.first.files) >= j.need && forall p | p in j.Taken() :: p in j.first.files
    ensures Outcome(RemoveAll(j.first, j.Taken()), j.Left() == 0,
                    EncodeWord(SAPI_EVICT) + j.Sent(j.Taken()) + EncodeWord(if j.Left() == 0 then SAPI_SUCCESS else SAPI_FAILURE))
            == Evict(j.first, j.client, BusyPaths(j.handles, j.busy), j.Order(), j.need, j.sendBack)
  {
  }

  // server_evict
  method ServerEvict(s: FileStorage, client: nat, need: nat, sendBack: bool, busy: set<FileData>)
    returns (ok: bool, sent: seq<Byte>, ghost order: seq<Path>)
    requires s.Valid() && Inv(s.Abs())
    modifies s, s.table, s.table.table, s.table.Repr, s.handles.Values`info, s.handles.Values`client
    ensures s.Valid() && s.table.Repr == old(s.table.Repr)
    ensures forall p | p in s.handles :: p in old(s.handles) && s.handles[p] == old(s.handles)[p]
    ensures IsOrder(old(s.Abs()).files, order)
    ensures Outcome(s.Abs(), ok, sent) == Evict(old(s.Abs()), client, BusyPaths(old(s.handles), busy), order, need, sendBack)
  {
    hide FileStorage.Valid, FileStorage.Abs, FilesOf, InEvictionOrder, RemoveAll, Inv, Bytes, Job.Taken, Job.Left, Job.Sent, SortedBy, Current;
    var plan;
    plan, order := EvictFiles(s, need);
    if plan == null {
      return false, [], order;
    }
    StoredPathsAreKnown(s);
    ghost var j := Job(s.Abs(), s.handles, client, busy, need, sendBack, plan.Elements());
    var left, frames := EvictLoop(s, client, need, sendBack, busy, plan);
    JobIsEvict(j);
    ok := left == 0;
    sent := EncodeWord(SAPI_EVICT) + frames + EncodeWord(if ok then SAPI_SUCCESS else SAPI_FAILURE);
  }

  // ----------------------------------------------------------------------------- the handlers

  // The fields that opening and closing set in a stored file.
  method SetOwner(s: FileStorage, file: FileData, client: int, lock: bool)
    requires s.Valid() && file.path in s.handles && s.handles[file.path] == file
    modifies file`client, file`info
    ensures s.Valid()
    ensures var was := old(s.Abs());
            s.Abs() == was.(files := was.files[file.path := old(FileOf(file)).(client := client, info := MaskLock(old(file.info), lock))])
  {
    hide FileStorage.TableHolds, FilesOf;
    file.client := client;
    file.info := MaskLock(file.info, lock);
    FilesChangeAt(old(FilesOf(s.handles)), s.handles, file.path);
  }

  // A new file, for a client that creates what it opens.
  method CreateFile(s: FileStorage, client: nat, path: Path, lock: bool) returns (ok: bool)
    requires s.Valid() && path in s.universe && path !in s.handles
    modifies s, s.table, s.table.table, s.table.Repr
    ensures s.Valid() && fresh(s.table.Repr - old(s.table.Repr))
    ensures fresh(s.handles.Values - old(s.handles.Values))
    ensures var o := DoOpen(old(s.Abs()), client, path, true, lock); s.Abs() == o.store && ok == o.ok
  {
    hide FileStorage.Valid, FilesOf, SizeT, EncodeWord, MaskLock, AddFits;
    var file := new FileData();
    file.client := client;
    file.info := MaskLock(file.info, lock);
    if s.BytesAvailable() == 0 || s.FilesAvailable() == 0 {
      return false;
    }
    ok := s.AddFile(file, path);
  }

  // server_openFile
  method OpenFile(s: FileStorage, client: nat, path: Path, create: bool, lock: bool) returns (ok: bool, sent: seq<Byte>)
    requires s.Valid() && path in s.universe
    modifies s, s.table, s.table.table, s.table.Repr, s.handles.Values`info, s.handles.Values`client
    ensures s.Valid() && fresh(s.table.Repr - old(s.table.Repr))
    ensures fresh(s.handles.Values - old(s.handles.Values))
    ensures Outcome(s.Abs(), ok, sent) == DoOpen(old(s.Abs()), client, path, create, lock)
  {
    hide FileStorage.TableHolds, FilesOf, SizeT, UInt, EncodeWord;
    var file := s.GetFile(path);
    if file == null {
      if !create {
        return false, EncodeWord(SAPI_FNF);
      }
      ok := CreateFile(s, client, path, lock);
      return ok, EncodeWord(if ok then SAPI_SUCCESS else SAPI_FAILURE);
    }
    if file.client != FREE {
      return false, EncodeWord(SAPI_ALREADY);
    }
    SetOwner(s, file, client, lock);
    return true, EncodeWord(SAPI_SUCCESS);
  }

  // server_closeFile
  method CloseFile(s: FileStorage, client: nat, path: Path) returns (ok: bool, sent: seq<Byte>)
    requires s.Valid() && path in s.universe
    modifies s.handles.Values`info, s.handles.Values`client
    ensures s.Valid()
    ensures s.handles == old(s.handles)
    ensures Outcome(s.Abs(), ok, sent) == DoClose(old(s.Abs()), client, path)
  {
    hide FileStorage.TableHolds, FilesOf, SizeT, UInt, EncodeWord;
    var file := s.GetFile(path);
    if file == null {
      return false, EncodeWord(SAPI_FNF);
    }
    if file.client != client {
      return false, EncodeWord(SAPI_LOCKED);
    }
    SetOwner(s, file, FREE, false);
    return true, EncodeWord(SAPI_SUCCESS);
  }

  // server_readFile
  method ReadFile(s: FileStorage, client: nat, path: Path) returns (ok: bool, sent: seq<Byte>)
    requires s.Valid() && path in s.universe
    modifies s.handles.Values`info
    ensures s.Valid()
    ensures s.handles == old(s.handles)
    ensures Outcome(s.Abs(), ok, sent) == DoRead(old(s.Abs()), client, path)
  {
    hide FileStorage.TableHolds, FilesOf, SizeT, UInt, EncodeWord, SendData;
    var file := s.GetFile(path);
    if file == null {
      return false, EncodeWord(SAPI_FNF);
    }
    if (file.client != 0 && file.client != client) || (HasLockBit(file.info) && file.client != client) {
      return false, EncodeWord(SAPI_LOCKED);
    }
    return true, EncodeWord(SAPI_SUCCESS) + SendData(file.data);
  }

  // server_removeFile
  method RemoveFile(s: FileStorage, client: nat, path: Path) returns (ok: bool, sent: seq<Byte>)
    requires s.Valid() && path in s.universe
    modifies s, s.table, s.table.table, s.table.Repr, s.handles.Values`info
    ensures s.Valid() && s.table.Repr == old(s.table.Repr)
    ensures s.handles.Values <= old(s.handles.Values)
    ensures Outcome(s.Abs(), ok, sent) == DoRemove(old(s.Abs()), client, path)
  {
    hide FileStorage.TableHolds, FilesOf, SizeT, UInt, EncodeWord;
    var file := s.GetFile(path);
    if file == null {
      return true, EncodeWord(SAPI_FNF);
    }
    if file.client != client {
      return false, EncodeWord(SAPI_LOCKED);
    }
    var removed := s.RemoveFile(path);
    return true, EncodeWord(SAPI_SUCCESS);
  }

  // ---------------------------------------------------------------------------- read n files

  // How far the traversal is: the files sent, and the same traversal of what is left.
  ghost predicate ReadingAt(first: Storage, order: seq<Path>, n: nat, b: set<Path>, i: nat,
                            now: Storage, done: seq<Path>, left: nat, sent: seq<Byte>) {
    && i <= |order| && now == TouchAll(first, done)
    && done + Picked(first.files, order[i..], left, b) == Picked(first.files, order, n, b)
    && (forall p | p in done :: p in first.files) && sent == ReadFrames(Parcels(first.files, done))
  }

  lemma ReadingStart(first: Storage, order: seq<Path>, n: nat, b: set<Path>)
    ensures ReadingAt(first, order, n, b, 0, first, [], n, [])
  {
  }

  lemma ReadingStep(first: Storage, order: seq<Path>, n: nat, b: set<Path>, i: nat,
                    now: Storage, done: seq<Path>, left: nat, sent: seq<Byte>)
    requires ReadingAt(first, order, n, b, i, now, done, left, sent) && i < |order| && left > 0 && order[i] in first.files
    ensures var p := order[i];
            if p !in b && first.files[p].data != []
            then ReadingAt(first, order, n, b, i + 1, Touch(now, p), done + [p], left - 1,
                           sent + SendParcel(Parcel(p, first.files[p].data)))
            else ReadingAt(first, order, n, b, i + 1, now, done, left, sent)
  {
    var p := order[i];
    assert order[i..][1..] == order[i + 1..];
    if p !in b && first.files[p].data != [] {
      var v := Picked(first.files, order[i + 1..], left - 1, b);
      assert done + ([p] + v) == done + [p] + v;
      TouchAllThenOne(first, done, p);
      assert Parcels(first.files, done + [p]) == Parcels(first.files, done) + [Parcel(p, first.files[p].data)];
      ReadFramesAppend(Parcels(first.files, done), Parcel(p, first.files[p].data));
    }
  }

  lemma ReadingEnd(first: Storage, order: seq<Path>, n: nat, b: set<Path>, i: nat, client: nat,
                   now: Storage, done: seq<Path>, left: nat, sent: seq<Byte>)
    requires ReadingAt(first, order, n, b, i, now, done, left, sent) && (left == 0 || i == |order|)
    ensures Outcome(now, true, sent + EncodeSize(0)) == DoReadN(first, client, n, order, b)
  {
    assert left == 0 || order[i..] == [];
    assert done + [] == done;
  }

  function KeysOf(items: seq<Item<Path, FileData>>): (r: seq<Path>)
    ensures |r| == |items| && forall i | 0 <= i < |r| :: r[i] == items[i].key
  {
    seq(|items|, i requires 0 <= i < |items| => items[i].key)
  }

  lemma ItemsAreStored(s: FileStorage, items: seq<Item<Path, FileData>>)
    requires s.Valid() && items == Flatten(s.table.Contents())
    ensures Enumerates(s.Abs().files, KeysOf(items))
    ensures forall i | 0 <= i < |items| :: items[i].key in s.handles && s.handles[items[i].key] == items[i].data
  {
    ItemsArePlan(s, items, EntriesOf(items));
    assert PlanPaths(EntriesOf(items)) == KeysOf(items) by {
      forall i | 0 <= i < |items| ensures items[i].data.path == items[i].key {
        TraversalIsExact(PathTable.PathHash, PathTable.PathCompare, s.table.Contents(), s.handles, s.universe);
      }
    }
    TraversalIsExact(PathTable.PathHash, PathTable.PathCompare, s.table.Contents(), s.handles, s.universe);
  }

  // The traversal of server_readNFiles, over the items that it visits.
  method SendFiles(s: FileStorage, n: nat, busy: set<FileData>, items: seq<Item<Path, FileData>>, ghost client: nat)
    returns (sent: seq<Byte>)
    requires s.Valid()
    requires forall i | 0 <= i < |items| :: items[i].key in s.handles && s.handles[items[i].key] == items[i].data
    modifies s.handles.Values`info
    ensures s.Valid()
    ensures Outcome(s.Abs(), true, sent + EncodeSize(0)) ==
            DoReadN(old(s.Abs()), client, n, KeysOf(items), BusyPaths(s.handles, busy))
  {
    hide FileStorage.Valid, FileStorage.Abs, FilesOf, ReadingAt, DoReadN, EncodeSize, SendPath, SendData;
    ghost var first, order, b, done := s.Abs(), KeysOf(items), BusyPaths(s.handles, busy), [];
    ReadingStart(first, order, n, b);
    StoredFiles(s);
    var left, i := n, 0;
    sent := [];
    while i < |items| && left != 0
      invariant 0 <= i <= |items| && s.Valid()
      invariant forall p | p in s.handles :: p in first.files && first.files[p].data == s.handles[p].data
      invariant ReadingAt(first, order, n, b, i, s.Abs(), done, left, sent)
    {
      var file, name := items[i].data, items[i].key;
      StoredFile(s, name);
      ReadingStep(first, order, n, b, i, s.Abs(), done, left, sent);
      if file !in busy && file.data != [] {
        s.CountAccess(file);
        sent := sent + (SendPath(name) + SendData(file.data));
        done, left := done + [name], left - 1;
      }
      i := i + 1;
    }
    ReadingEnd(first, order, n, b, i, client, s.Abs(), done, left, sent);
  }

  // server_readNFiles
  method ReadNFiles(s: FileStorage, client: nat, n: nat, busy: set<FileData>)
    returns (ok: bool, sent: seq<Byte>, ghost order: seq<Path>)
    requires s.Valid()
    modifies s.handles.Values`info
    ensures s.Valid() && order == KeysOf(Flatten(old(s.table.Contents())))
    ensures s.handles == old(s.handles)
    ensures Enumerates(old(s.Abs()).files, order)
    ensures Outcome(s.Abs(), ok, sent) == DoReadN(old(s.Abs()), client, n, order, BusyPaths(s.handles, busy))
  {
    hide FileStorage.Abs, FilesOf, DoReadN, EncodeSize, Flatten, Represents;
    var items := s.table.Traverse();
    ItemsAreStored(s, items);
    order := KeysOf(items);
    var frames := SendFiles(s, n, busy, items, client);
    return true, frames + EncodeSize(0), order;
  }

  // ---------------------------------------------------------------------------------- write

  lemma BusyWithTarget(s: FileStorage, path: Path, busy: set<FileData>)
    requires s.Valid() && path in s.handles
    ensures BusyPaths(s.handles, busy + {s.handles[path]}) == BusyPaths(s.handles, busy) + {path}
  {
  }

  // Some order of the stored files.
  lemma SomeOrder(s: FileStorage) returns (order: seq<Path>)
    requires s.Valid()
    ensures Enumerates(s.Abs().files, order)
  {
    var items := Flatten(s.table.Contents());
    ItemsAreStored(s, items);
    order := KeysOf(items);
  }

  // The end of both handlers, when the space is there.
  method FinishWriting(s: FileStorage, file: FileData, append: bool, data: seq<Byte>, soFar: seq<Byte>)
    returns (ok: bool, sent: seq<Byte>)
    requires s.Valid() && file.path in s.handles && s.handles[file.path] == file
    modifies s`currBytes, file`info, file`data
    ensures s.Valid()
    ensures Outcome(s.Abs(), ok, sent) == FinishWrite(old(s.Abs()), file.path, append, data, soFar)
  {
    hide FileStorage.Valid, FileStorage.Abs, FilesOf, EncodeWord;
    StoredFile(s, file.path);
    ok := s.WriteFile(file, if append then |file.data| else 0, data);
    sent := soFar + EncodeWord(if ok then SAPI_SUCCESS else SAPI_FAILURE);
  }

  // The eviction for a write: the target keeps its place.
  lemma TargetStays(first: Storage, client: nat, b: set<Path>, order: seq<Path>, need: nat, sendBack: bool, path: Path)
    requires path in first.files && path in b
    ensures path in Evict(first, client, b, order, need, sendBack).store.files
  {
  }

  lemma SameKeys(a: Files, b: Files, order: seq<Path>)
    requires a.Keys == b.Keys
    ensures Enumerates(a, order) == Enumerates(b, order)
  {
  }

  // The space for a write to `file`, directly or by an eviction that passes over it.
  method MakeRoom(s: FileStorage, client: nat, file: FileData, len: nat, sendBack: bool, busy: set<FileData>)
    returns (ok: bool, sent: seq<Byte>, ghost order: seq<Path>)
    requires s.Valid() && Inv(s.Abs()) && file.path in s.handles && s.handles[file.path] == file
    modifies s, s.table, s.table.table, s.table.Repr, s.handles.Values`info, s.handles.Values`client
    ensures s.Valid() && s.table.Repr == old(s.table.Repr)
    ensures s.handles.Values <= old(s.handles.Values)
    ensures Enumerates(old(s.Abs()).files, order)
    ensures Store.BytesAvailable(old(s.Abs())) < len ==> IsOrder(old(s.Abs()).files, order)
    ensures file.path in s.handles && s.handles[file.path] == file
    ensures var was, b, free := old(s.Abs()), BusyPaths(old(s.handles), busy) + {file.path}, Store.BytesAvailable(old(s.Abs()));
            Outcome(s.Abs(), ok, sent) ==
            if free < len then Evict(was, client, b, order, len - free, sendBack) else Outcome(was, true, EncodeWord(SAPI_SUCCESS))
  {
    hide FileStorage.Valid, FilesOf, SizeT, EncodeWord, Evict, Enumerates, InRange, InEvictionOrder, Inv, Bytes, BusyPaths;
    var free := s.BytesAvailable();
    if free >= len {
      order := SomeOrder(s);
      return true, EncodeWord(SAPI_SUCCESS), order;
    }
    BusyWithTarget(s, file.path, busy);
    ok, sent, order := ServerEvict(s, client, len - free, sendBack, busy + {file});
    TargetStays(old(s.Abs()), client, BusyPaths(old(s.handles), busy) + {file.path}, order, len - free, sendBack, file.path);
  }

  // Both handlers, once the file is found to be the client's.
  method WriteOwn(s: FileStorage, client: nat, file: FileData, append: bool, data: seq<Byte>, sendBack: bool,
                  busy: set<FileData>)
    returns (ok: bool, sent: seq<Byte>, ghost order: seq<Path>)
    requires s.Valid() && Inv(s.Abs()) && file.path in s.handles && s.handles[file.path] == file
    modifies s, s.table, s.table.table, s.table.Repr, s.handles.Values
    ensures s.Valid() && s.table.Repr == old(s.table.Repr)
    ensures s.handles.Values <= old(s.handles.Values)
    ensures Enumerates(old(s.Abs()).files, order)
    ensures Store.BytesAvailable(old(s.Abs())) < |data| ==> IsOrder(old(s.Abs()).files, order)
    ensures Outcome(s.Abs(), ok, sent) ==
            WriteHeld(old(s.Abs()), client, old(file.path), append, data, BusyPaths(old(s.handles), busy), order, sendBack)
  {
    hide FileStorage.Valid, FileStorage.Abs, FilesOf, SizeT, EncodeWord, Evict, FinishWrite, Inv, IsOrder, Enumerates, BusyPaths;
    ok, sent, order := MakeRoom(s, client, file, |data|, sendBack, busy);
    if !ok {
      return false, sent + EncodeWord(SAPI_FAILURE), order;
    }
    ok, sent := FinishWriting(s, file, append, data, sent);
  }

  // server_writeFile and server_appendToFile, which differ in the offset only
  method WriteOrAppend(s: FileStorage, client: nat, path: Path, append: bool, data: seq<Byte>, sendBack: bool,
                       busy: set<FileData>)
    returns (ok: bool, sent: seq<Byte>, ghost order: seq<Path>)
    requires s.Valid() && Inv(s.Abs()) && path in s.universe
    modifies s, s.table, s.table.table, s.table.Repr, s.handles.Values
    ensures s.Valid() && s.table.Repr == old(s.table.Repr)
    ensures s.handles.Values <= old(s.handles.Values)
    ensures Enumerates(old(s.Abs()).files, order)
    ensures Store.BytesAvailable(old(s.Abs())) < |data| && Holds(old(s.Abs()), client, path) ==>
              IsOrder(Touch(old(s.Abs()), path).files, order)
    ensures Outcome(s.Abs(), ok, sent) ==
            DoWrite(old(s.Abs()), client, path, append, data, BusyPaths(old(s.handles), busy), order, sendBack)
  {
    hide FileStorage.Valid, FilesOf, UInt, EncodeWord, WriteHeld, Inv, IsOrder, Enumerates, BusyPaths, Bytes;
    order := SomeOrder(s);
    TouchKeepsInv(s.Abs(), path);
    var file := s.GetFile(path);
    if file == null {
      return false, EncodeWord(SAPI_FNF), order;
    }
    StoredFile(s, path);
    if file.client != client {
      return false, EncodeWord(SAPI_LOCKED), order;
    }
    ghost var files := s.Abs().files;
    ok, sent, order := WriteOwn(s, client, file, append, data, sendBack, busy);
    SameKeys(files, old(s.Abs()).files, order);
  }

  // ---------------------------------------------------------------------------------- serve

  // A request as it arrives: the word, and what the handler of its operation then reads.
  datatype Message = Message(word: nat, path: Path, data: seq<Byte>, sendBack: bool)

  // The request that the word asks for.
  function RequestOf(client: nat, m: Message, order: seq<Path>, busy: set<Path>): Request {
    var op := MessageOp(m.word);
    if op == SAPI_OPENFILE then Open(client, m.path, HasFlag(m.word, O_CREATE), HasFlag(m.word, O_LOCK))
    else if op == SAPI_CLOSEFILE then Close(client, m.path)
    else if op == SAPI_READFILE then Read(client, m.path)
    else if op == SAPI_READNFILES then ReadN(client, MessageSize(m.word), order, busy)
    else if op == SAPI_WRITEFILE then Write(client, m.path, false, m.data, busy, order, m.sendBack)
    else if op == SAPI_APPENDFILE then Write(client, m.path, true, m.data, busy, order, m.sendBack)
    else if op == SAPI_REMOVEFILE then Remove(client, m.path)
    else Other(client, op == SAPI_LOCKFILE || op == SAPI_UNLOCKFILE)
  }

  /** serve. Whatever word arrives, what happens to the objects in memory is one step of the
      storage, with an order that the environment may choose. When the request evicts, that order is
      the eviction order. */
  method Serve(s: FileStorage, client: nat, m: Message, busy: set<FileData>)
    returns (ok: bool, sent: seq<Byte>, ghost order: seq<Path>)
    requires s.Valid() && Inv(s.Abs()) && m.path in s.universe
    modifies s, s.table, s.table.table, s.table.Repr, s.handles.Values
    ensures s.Valid() && fresh(s.table.Repr - old(s.table.Repr))
    ensures fresh(s.handles.Values - old(s.handles.Values))
    ensures var r := RequestOf(client, m, order, BusyPaths(old(s.handles), busy));
            && Legal(old(s.Abs()), r)
            && Outcome(s.Abs(), ok, sent) == Step(old(s.Abs()), r)
            && (Evicts(old(s.Abs()), r) ==> IsOrder(Touch(old(s.Abs()), m.path).files, order))
    ensures Inv(s.Abs())
  {
    hide FileStorage.Valid, FileStorage.Abs, Inv, Enumerates, IsOrder, EncodeWord, DoOpen, DoClose, DoRead, DoReadN, DoWrite, DoRemove;
    ghost var b := BusyPaths(s.handles, busy);
    order := SomeOrder(s);
    var op := MessageOp(m.word);
    if client == 0 {
      ok, sent := false, [];
    } else if op == SAPI_OPENFILE {
      ok, sent := OpenFile(s, client, m.path, HasFlag(m.word, O_CREATE), HasFlag(m.word, O_LOCK));
    } else if op == SAPI_CLOSEFILE {
      ok, sent := CloseFile(s, client, m.path);
    } else if op == SAPI_READFILE {
      ok, sent := ReadFile(s, client, m.path);
    } else if op == SAPI_READNFILES {
      ok, sent, order := ReadNFiles(s, client, MessageSize(m.word), busy);
    } else if op == SAPI_WRITEFILE {
      ok, sent, order := WriteOrAppend(s, client, m.path, false, m.data, m.sendBack, busy);
    } else if op == SAPI_APPENDFILE {
      ok, sent, order := WriteOrAppend(s, client, m.path, true, m.data, m.sendBack, busy);
    } else if op == SAPI_REMOVEFILE {
      ok, sent := RemoveFile(s, client, m.path);
    } else if op == SAPI_LOCKFILE || op == SAPI_UNLOCKFILE {
      ok, sent := true, [];
    } else {
      ok, sent := false, EncodeWord(SAPI_FAILURE);
    }
    StepKeepsInv(old(s.Abs()), RequestOf(client, m, order, b));
  }

  // ------------------------------------------------------------------------------------ runs

  datatype Arrival = Arrival(client: nat, message: Message)

  datatype Answer = Answer(ok: bool, sent: seq<Byte>)

  // The request is what arrived, with an order and busy files of the environment's choice.
  ghost predicate Asks(a: Arrival, r: Request) {
    exists order, busy :: r == RequestOf(a.client, a.message, order, busy)
  }

  ghost function Answers(s: Storage, requests: seq<Request>): seq<Answer>
    decreases |requests|
  {
    if requests == [] then []
    else
      var o := Step(s, requests[0]);
      [Answer(o.ok, o.sent)] + Answers(o.store, requests[1..])
  }

  lemma {:induction false} OneMore(s: Storage, requests: seq<Request>, r: Request)
    requires LegalRun(s, requests) && Legal(After(s, requests), r)
    ensures LegalRun(s, requests + [r])
    ensures After(s, requests + [r]) == Step(After(s, requests), r).store
    ensures var o := Step(After(s, requests), r); Answers(s, requests + [r]) == Answers(s, requests) + [Answer(o.ok, o.sent)]
    decreases |requests|
  {
    hide Legal, Step;
    if requests == [] {
      assert [] + [r] == [r] && [r][1..] == [];
    } else {
      assert (requests + [r])[0] == requests[0] && (requests + [r])[1..] == requests[1..] + [r];
      OneMore(Step(s, requests[0]).store, requests[1..], r);
    }
  }

  /** Any number of requests, served one after the other with whatever mutexes are taken at the time:
      the objects in memory go through a legal run of the storage, so what Runs.dfy proves of every
      run holds of them, and the answers are those of the run. */
  method ServeRun(s: FileStorage, arrivals: seq<Arrival>) returns (answers: seq<Answer>, ghost requests: seq<Request>)
    requires s.Valid() && Inv(s.Abs()) && forall a | a in arrivals :: a.message.path in s.universe
    modifies s, s.table, s.table.table, s.table.Repr, s.handles.Values
    ensures s.Valid() && Inv(s.Abs())
    ensures |requests| == |arrivals| && forall i | 0 <= i < |arrivals| :: Asks(arrivals[i], requests[i])
    ensures LegalRun(old(s.Abs()), requests)
    ensures s.Abs() == After(old(s.Abs()), requests) && answers == Answers(old(s.Abs()), requests)
  {
    hide FileStorage.Valid, FileStorage.Abs, Inv, Legal, Step, RequestOf, BusyPaths, LegalRun, After, Answers;
    answers, requests := [], [];
    ghost var first := s.Abs();
    NoSteps(first);
    for i := 0 to |arrivals|
      invariant s.Valid() && Inv(s.Abs())
      invariant fresh(s.table.Repr - old(s.table.Repr)) && fresh(s.handles.Values - old(s.handles.Values))
      invariant |requests| == i && forall k | 0 <= k < i :: Asks(arrivals[k], requests[k])
      invariant LegalRun(first, requests) && s.Abs() == After(first, requests) && answers == Answers(first, requests)
    {
      var busy: set<FileData> := *;
      ghost var b := BusyPaths(s.handles, busy);
      var ok, sent, order := Serve(s, arrivals[i].client, arrivals[i].message, busy);
      ghost var r := RequestOf(arrivals[i].client, arrivals[i].message, order, b);
      OneMore(first, requests, r);
      answers, requests := answers + [Answer(ok, sent)], requests + [r];
    }
  }

  lemma NoSteps(s: Storage)
    ensures LegalRun(s, []) && After(s, []) == s && Answers(s, []) == []
  {
  }
}
