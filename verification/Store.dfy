/** The file storage as a value, and what every request does to it: the operations of
    libs/LSO_LIB/file_utils.c and the request handlers of src/server.c. The storage is a map from
    paths to files; FileStorage.dfy shows that the chained hash table keeps exactly this map.
    Every addition and subtraction of `size_t` values is made modulo 2^64, as in the source. */
module Store {
  import opened Words
  import opened Paths
  import opened Streams

  const FREE: int := -1      // the `client` of a file that nobody has open

  datatype File = File(data: seq<Byte>, client: int, info: nat)

  type Files = map<Path, File>

  datatype Storage = Storage(files: Files, maxFiles: nat, maxBytes: nat, currFiles: nat, currBytes: nat)

  // ------------------------------------------------------------------------- file_utils.c

  function InitStorage(maxFiles: nat, maxBytes: nat): Storage {
    Storage(map[], maxFiles, maxBytes, 0, 0)
  }

  function FilesAvailable(s: Storage): nat {
    SizeT(s.maxFiles - s.currFiles)
  }

  function BytesAvailable(s: Storage): nat {
    if s.currBytes > s.maxBytes then 0 else s.maxBytes - s.currBytes
  }

  // fu_getfile counts the access.
  function Touched(f: File): File {
    f.(info := UInt(f.info + 1))
  }

  function Touch(s: Storage, path: Path): Storage {
    if path in s.files then s.(files := s.files[path := Touched(s.files[path])]) else s
  }

  // fu_add_file, for a path that is not stored
  predicate AddFits(s: Storage, f: File) {
    FilesAvailable(s) != 0 && |f.data| <= BytesAvailable(s)
  }

  function AddFile(s: Storage, path: Path, f: File): Storage {
    if AddFits(s, f) then
      s.(files := s.files[path := f], currFiles := SizeT(s.currFiles + 1), currBytes := SizeT(s.currBytes + |f.data|))
    else s
  }

  // fu_remove_file
  function RemoveFile(s: Storage, path: Path): Storage {
    if path in s.files then
      s.(files := s.files - {path}, currFiles := SizeT(s.currFiles - 1),
         currBytes := SizeT(s.currBytes - |s.files[path].data|))
    else s
  }

  // The test of fu_writefile: the new total, with the wrap-around of the intermediate results.
  function NewTotal(s: Storage, f: File, i: nat, data: seq<Byte>): nat {
    SizeT(s.currBytes + SizeT(SizeT(i + |data|) - |f.data|))
  }

  predicate WriteAccepted(s: Storage, f: File, i: nat, data: seq<Byte>) {
    data != [] && i <= |f.data| && NewTotal(s, f, i, data) <= s.maxBytes
  }

  // fu_writefile: the file ends where the written bytes end.
  function WriteFile(s: Storage, path: Path, i: nat, data: seq<Byte>): Storage
    requires path in s.files
  {
    var f := s.files[path];
    if data == [] || i > |f.data| then s
    else if WriteAccepted(s, f, i, data) then
      s.(files := s.files[path := Touched(f).(data := f.data[..i] + data)], currBytes := NewTotal(s, f, i, data))
    else Touch(s, path)
  }

  // ------------------------------------------------------------------------------ eviction

  // The files that server_evict may take: their mutex is free, and they are closed or the client's own.
  predicate Eligible(files: Files, client: nat, busy: set<Path>, path: Path) {
    path in files && path !in busy && (files[path].client == FREE || files[path].client == client)
  }

  function Size(files: Files, path: Path): nat {
    if path in files then |files[path].data| else 0
  }

  function Sizes(files: Files, paths: seq<Path>): nat {
    if paths == [] then 0 else Size(files, paths[0]) + Sizes(files, paths[1..])
  }

  // What is still to be freed after a file of that size is gone.
  function Rest(need: nat, size: nat): nat {
    if size > need then 0 else need - size
  }

  // The files that the loop of server_evict removes, in the order of the plan.
  function Victims(files: Files, client: nat, busy: set<Path>, plan: seq<Path>, need: nat): (v: seq<Path>)
    ensures forall p | p in v :: Eligible(files, client, busy, p)
  {
    if need == 0 || plan == [] then []
    else if !Eligible(files, client, busy, plan[0]) then Victims(files, client, busy, plan[1..], need)
    else [plan[0]] + Victims(files, client, busy, plan[1..], Rest(need, Size(files, plan[0])))
  }

  // What is left of the need when that loop ends.
  function StillNeeded(files: Files, client: nat, busy: set<Path>, plan: seq<Path>, need: nat): nat {
    if need == 0 || plan == [] then need
    else if !Eligible(files, client, busy, plan[0]) then StillNeeded(files, client, busy, plan[1..], need)
    else StillNeeded(files, client, busy, plan[1..], Rest(need, Size(files, plan[0])))
  }

  function RemoveAll(s: Storage, paths: seq<Path>): (r: Storage)
    ensures forall p | p in s.files && p !in paths :: p in r.files && r.files[p] == s.files[p]
    ensures forall p | p in r.files :: p in s.files
    decreases |paths|
  {
    if paths == [] then s else RemoveAll(RemoveFile(s, paths[0]), paths[1..])
  }

  function Parcels(files: Files, paths: seq<Path>): (r: seq<Parcel>)
    requires forall p | p in paths :: p in files
    ensures |r| == |paths| && forall i | 0 <= i < |paths| :: r[i] == Parcel(paths[i], files[paths[i]].data)
  {
    seq(|paths|, i requires 0 <= i < |paths| => assert paths[i] in paths; Parcel(paths[i], files[paths[i]].data))
  }

  // What a request does: the new storage, whether the handler returned 0, and the bytes it wrote.
  datatype Outcome = Outcome(store: Storage, ok: bool, sent: seq<Byte>)

  // The stored bytes, whatever the counter says.
  ghost function Bytes(files: Files): nat {
    if files == map[] then 0
    else var p :| p in files; |files[p].data| + Bytes(files - {p})
  }

  // server_evict. `plan` is the array fu_evict_files makes, which it does not when even all the
  // files together are too small; `busy` are the files whose mutex is taken.
  ghost function Evict(s: Storage, client: nat, busy: set<Path>, plan: seq<Path>, need: nat, sendBack: bool): Outcome {
    if Bytes(s.files) < need then Outcome(s, false, [])
    else
      var v := Victims(s.files, client, busy, plan, need);
      var ok := StillNeeded(s.files, client, busy, plan, need) == 0;
      Outcome(RemoveAll(s, v), ok,
              EncodeWord(SAPI_EVICT) + (if sendBack then EvictFrames(Parcels(s.files, v)) else [])
              + EncodeWord(if ok then SAPI_SUCCESS else SAPI_FAILURE))
  }

  // ------------------------------------------------------------------------------ requests

  datatype Request =
    | Open(client: nat, path: Path, create: bool, lock: bool)
    | Close(client: nat, path: Path)
    | Read(client: nat, path: Path)
    | ReadN(client: nat, n: nat, order: seq<Path>, busy: set<Path>)
    | Write(client: nat, path: Path, append: bool, data: seq<Byte>, busy: set<Path>, plan: seq<Path>, sendBack: bool)
    | Remove(client: nat, path: Path)
    | Other(client: nat, stub: bool)   // lockFile and unlockFile, which do nothing, or an unknown operation

  predicate HasLockBit(info: nat) { info / O_LOCK % 2 == 1 }

  // data_info &= O_LOCK
  function MaskLock(info: nat, lock: bool): nat {
    if !lock then info else if HasLockBit(info) then O_LOCK else 0
  }

  // server_openFile
  function DoOpen(s: Storage, client: nat, path: Path, create: bool, lock: bool): Outcome {
    if path !in s.files then
      if !create then Outcome(s, false, EncodeWord(SAPI_FNF))
      else
        var f := File([], client, MaskLock(0, lock));
        if BytesAvailable(s) == 0 || FilesAvailable(s) == 0 then Outcome(s, false, EncodeWord(SAPI_FAILURE))
        else if AddFits(s, f) then Outcome(AddFile(s, path, f), true, EncodeWord(SAPI_SUCCESS))
        else Outcome(s, false, EncodeWord(SAPI_FAILURE))
    else
      var t := Touch(s, path);
      var f := t.files[path];
      if f.client != FREE then Outcome(t, false, EncodeWord(SAPI_ALREADY))
      else
        Outcome(t.(files := t.files[path := f.(client := client, info := MaskLock(f.info, lock))]),
                true, EncodeWord(SAPI_SUCCESS))
  }

  // server_closeFile
  function DoClose(s: Storage, client: nat, path: Path): Outcome {
    if path !in s.files then Outcome(s, false, EncodeWord(SAPI_FNF))
    else
      var t := Touch(s, path);
      var f := t.files[path];
      if f.client != client then Outcome(t, false, EncodeWord(SAPI_LOCKED))
      else Outcome(t.(files := t.files[path := f.(client := FREE)]), true, EncodeWord(SAPI_SUCCESS))
  }

  // server_readFile
  function DoRead(s: Storage, client: nat, path: Path): Outcome {
    if path !in s.files then Outcome(s, false, EncodeWord(SAPI_FNF))
    else
      var t := Touch(s, path);
      var f := t.files[path];
      if (f.client != 0 && f.client != client) || (HasLockBit(f.info) && f.client != client) then
        Outcome(t, false, EncodeWord(SAPI_LOCKED))
      else Outcome(t, true, EncodeWord(SAPI_SUCCESS) + SendData(f.data))
  }

  // The files that server_readNFiles picks from the table: the first n that have data and whose
  // mutex is free.
  function Picked(files: Files, order: seq<Path>, n: nat, busy: set<Path>): (r: seq<Path>)
    ensures forall p | p in r :: p in files && files[p].data != []
  {
    if n == 0 || order == [] then []
    else if order[0] in files && order[0] !in busy && files[order[0]].data != [] then
      [order[0]] + Picked(files, order[1..], n - 1, busy)
    else Picked(files, order[1..], n, busy)
  }

  function TouchAll(s: Storage, paths: seq<Path>): Storage
    decreases |paths|
  {
    if paths == [] then s else TouchAll(Touch(s, paths[0]), paths[1..])
  }

  // server_readNFiles
  function DoReadN(s: Storage, client: nat, n: nat, order: seq<Path>, busy: set<Path>): Outcome {
    var picked := Picked(s.files, order, n, busy);
    Outcome(TouchAll(s, picked), true, ReadFrames(Parcels(s.files, picked)) + EncodeSize(0))
  }

  // The end of server_writeFile and server_appendToFile, when the space is there.
  function FinishWrite(s: Storage, path: Path, append: bool, data: seq<Byte>, sent: seq<Byte>): Outcome
    requires path in s.files
  {
    var f := s.files[path];
    var i := if append then |f.data| else 0;
    var ok := WriteAccepted(s, f, i, data);
    Outcome(WriteFile(s, path, i, data), ok, sent + EncodeWord(if ok then SAPI_SUCCESS else SAPI_FAILURE))
  }

  // A write by the client that holds the file.
  ghost function WriteHeld(s: Storage, client: nat, path: Path, append: bool, data: seq<Byte>,
                           busy: set<Path>, plan: seq<Path>, sendBack: bool): Outcome
    requires path in s.files
  {
    if BytesAvailable(s) < |data| then
      // the mutex of the target is held by this very handler
      var e := Evict(s, client, busy + {path}, plan, |data| - BytesAvailable(s), sendBack);
      if !e.ok then Outcome(e.store, false, e.sent + EncodeWord(SAPI_FAILURE))
      else FinishWrite(e.store, path, append, data, e.sent)
    else FinishWrite(s, path, append, data, EncodeWord(SAPI_SUCCESS))
  }

  // server_writeFile and server_appendToFile, which differ in the offset only
  ghost function DoWrite(s: Storage, client: nat, path: Path, append: bool, data: seq<Byte>,
                         busy: set<Path>, plan: seq<Path>, sendBack: bool): Outcome {
    if path !in s.files then Outcome(s, false, EncodeWord(SAPI_FNF))
    else
      var t := Touch(s, path);
      if t.files[path].client != client then Outcome(t, false, EncodeWord(SAPI_LOCKED))
      else WriteHeld(t, client, path, append, data, busy, plan, sendBack)
  }

  // server_removeFile
  function DoRemove(s: Storage, client: nat, path: Path): Outcome {
    if path !in s.files then Outcome(s, true, EncodeWord(SAPI_FNF))
    else
      var t := Touch(s, path);
      if t.files[path].client != client then Outcome(t, false, EncodeWord(SAPI_LOCKED))
      else Outcome(RemoveFile(t, path), true, EncodeWord(SAPI_SUCCESS))
  }

  // serve. A request that comes with descriptor 0 is refused without an answer.
  ghost function Step(s: Storage, r: Request): Outcome {
    if r.client == 0 then Outcome(s, false, [])
    else
      match r
      case Open(c, p, create, lock) => DoOpen(s, c, p, create, lock)
      case Close(c, p) => DoClose(s, c, p)
      case Read(c, p) => DoRead(s, c, p)
      case ReadN(c, n, order, busy) => DoReadN(s, c, n, order, busy)
      case Write(c, p, append, data, busy, plan, sendBack) => DoWrite(s, c, p, append, data, busy, plan, sendBack)
      case Remove(c, p) => DoRemove(s, c, p)
      case Other(_, stub) => Outcome(s, stub, if stub then [] else EncodeWord(SAPI_FAILURE))
  }

  ghost function PathSet(paths: seq<Path>): set<Path> {
    set p | p in paths
  }

  ghost predicate Distinct(paths: seq<Path>) {
    forall i, j | 0 <= i < j < |paths| :: paths[i] != paths[j]
  }

  // The stored files, each once, in some order.
  ghost predicate Enumerates(files: Files, order: seq<Path>) {
    PathSet(order) == files.Keys && Distinct(order)
  }

  // The requests that make the server evict.
  predicate Evicts(s: Storage, r: Request) {
    r.client != 0 && r.Write? && r.path in s.files && s.files[r.path].client == r.client && BytesAvailable(s) < |r.data|
  }

  // What the environment of a handler is free to choose: the order qsort leaves equal files in,
  // the order of the chains, and which mutexes are taken.
  ghost predicate Legal(s: Storage, r: Request) {
    match r
    case Write(_, _, _, _, _, plan, _) => Enumerates(s.files, plan)
    case ReadN(_, _, order, _) => Enumerates(s.files, order)
    case _ => true
  }

  // ------------------------------------------------------------------------------ invariant

  // The accounts of the storage are exact and within the limits.
  ghost predicate Inv(s: Storage) {
    && s.maxFiles < SIZE_MOD && s.maxBytes < SIZE_MOD
    && s.currFiles == |s.files| <= s.maxFiles
    && s.currBytes == Bytes(s.files) <= s.maxBytes
  }
}
