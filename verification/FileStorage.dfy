/** The file storage of libs/LSO_LIB/file_utils.c as the server keeps it: file objects in a chained
    hash table, shared by reference and updated in place. Every method is proved against the
    function of Store.dfy it implements; `Abs` reads the storage as that value. */
module FileStorages {
  import opened Words
  import opened Paths
  import opened PathTable
  import opened Chains
  import opened TableMap
  import opened HashTables
  import opened Store
  import opened Accounts

  class FileData {
    var data: seq<Byte>    // data and data_len of the source
    var client: int
    var info: nat
    var path: Path

    // fu_alloc_file_data
    constructor ()
      ensures data == [] && client == FREE && info == 0
    {
      data, client, info, path := [], FREE, 0, [];
    }
  }

  ghost function FileOf(f: FileData): File
    reads f
  {
    File(f.data, f.client, f.info)
  }

  ghost function FilesOf(handles: map<Path, FileData>): (files: Files)
    reads handles.Values
    ensures files.Keys == handles.Keys && forall p | p in handles :: files[p] == FileOf(handles[p])
  {
    map p | p in handles :: FileOf(handles[p])
  }

  // One file object has changed since the files were `was`: its entry shows it.
  lemma FilesChangeAt(was: Files, h: map<Path, FileData>, path: Path)
    requires was.Keys == h.Keys && path in h && forall p | p in h && p != path :: was[p] == FileOf(h[p])
    ensures FilesOf(h) == was[path := FileOf(h[path])]
  {
  }

  // The files are what they were, but for one that is new, or one that is gone.
  lemma FilesWith(was: Files, h: map<Path, FileData>, path: Path, file: FileData)
    requires was.Keys == h.Keys && forall p | p in h :: was[p] == FileOf(h[p])
    ensures FilesOf(h[path := file]) == was[path := FileOf(file)]
  {
  }

  lemma FilesWithout(was: Files, h: map<Path, FileData>, path: Path)
    requires was.Keys == h.Keys && forall p | p in h && p != path :: was[p] == FileOf(h[p])
    ensures FilesOf(h - {path}) == was - {path}
  {
  }

  // The access that fu_remove_file counts goes with the file.
  lemma RemoveTouched(s: Storage, path: Path)
    ensures Store.RemoveFile(Touch(s, path), path) == Store.RemoveFile(s, path)
  {
  }

  class FileStorage {
    const table: HashTable<Path, FileData>
    const maxFiles: nat
    const maxBytes: nat
    var currFiles: nat
    var currBytes: nat
    ghost const universe: iset<Path>             // the paths that the clients use
    ghost var handles: map<Path, FileData>       // the stored files

    // The table holds exactly the handles, each under its own path.
    ghost predicate Valid()
      reads this, table, table.table, table.Repr, handles.Values
    {
      TableHolds(handles) && Named(handles)
    }

    ghost predicate TableHolds(h: map<Path, FileData>)
      reads table, table.table, table.Repr
    {
      && table.Valid() && table.hash == PathHash && table.compare == PathCompare
      && Represents(PathHash, PathCompare, table.Contents(), h, universe)
    }

    ghost predicate Named(h: map<Path, FileData>)
      reads h.Values
    {
      forall p | p in h :: h[p].path == p
    }

    ghost function Abs(): Storage
      reads this, handles.Values
    {
      Storage(FilesOf(handles), maxFiles, maxBytes, currFiles, currBytes)
    }

    // The storage that InitFileStorage makes.
    constructor (maxFiles: nat, maxBytes: nat, ghost universe: iset<Path>)
      requires 0 < maxFiles < SIZE_MOD && 0 < maxBytes < SIZE_MOD
      requires PrefixFree(maxFiles / 4 + 1, universe)
      ensures Valid() && Abs() == InitStorage(maxFiles, maxBytes) && this.universe == universe
      ensures this.maxFiles == maxFiles && this.maxBytes == maxBytes && currFiles == currBytes == 0 && handles == map[]
      ensures |table.Contents()| == maxFiles / 4 + 1
      ensures fresh(table) && fresh(table.table) && table.Repr == {}
    {
      this.maxFiles, this.maxBytes, this.universe := maxFiles, maxBytes, universe;
      currFiles, currBytes, handles := 0, 0, map[];
      table := new HashTable(maxFiles / 4 + 1, PathHash, PathCompare);
      new;
      PrefixFreeIsOrdered(maxFiles / 4 + 1, universe);
      EmptyRepresents<Path, FileData>(PathHash, PathCompare, maxFiles / 4 + 1, universe);
    }

    // The table, addressed by path, in terms of the stored files.
    method Lookup(path: Path) returns (file: FileData?)
      requires TableHolds(handles) && path in universe
      ensures file == if path in handles then handles[path] else null
    {
      GetFromMap(PathHash, PathCompare, table.Contents(), handles, path, universe);
      var r := table.Find(path);
      file := if r.None? then null else r.value;
    }

    method Enter(path: Path, file: FileData)
      requires TableHolds(handles) && path in universe && path !in handles
      modifies table, table.table, table.Repr
      ensures TableHolds(handles[path := file]) && fresh(table.Repr - old(table.Repr))
    {
      hide Represents;
      InsertIntoMap(PathHash, PathCompare, table.Contents(), handles, path, file, universe);
      table.Put(path, file);
    }

    method Strike(path: Path)
      requires TableHolds(handles) && path in universe
      modifies table, table.table, table.Repr
      ensures TableHolds(handles - {path}) && table.Repr == old(table.Repr)
    {
      hide Represents;
      RemoveFromMap(PathHash, PathCompare, table.Contents(), handles, path, universe);
      var removed := table.Delete(path);
    }

    // file->data_info++
    method CountAccess(file: FileData)
      requires Valid() && file.path in handles && handles[file.path] == file
      modifies file`info
      ensures Valid() && Abs() == Touch(old(Abs()), file.path)
    {
      hide TableHolds, FilesOf, UInt;
      file.info := UInt(file.info + 1);
      FilesChangeAt(old(FilesOf(handles)), handles, file.path);
    }

    // fu_getfile
    method GetFile(path: Path) returns (file: FileData?)
      requires Valid() && path in universe
      modifies handles.Values`info
      ensures Valid() && file == if path in handles then handles[path] else null
      ensures Abs() == Touch(old(Abs()), path)
    {
      hide TableHolds, FilesOf, SizeT, UInt;
      file := Lookup(path);
      if file != null {
        CountAccess(file);
      }
    }

    function FilesAvailable(): (r: nat)
      reads this
    {
      SizeT(maxFiles - currFiles)
    }

    function BytesAvailable(): (r: nat)
      reads this
    {
      if currBytes > maxBytes then 0 else maxBytes - currBytes
    }

    // The two accounts of the storage.
    method SetCounters(files: nat, bytes: nat)
      requires Valid()
      modifies `currFiles, `currBytes
      ensures Valid() && Abs() == old(Abs()).(currFiles := files, currBytes := bytes)
    {
      hide TableHolds, FilesOf;
      currFiles, currBytes := files, bytes;
    }

    // Put a file into the table.
    method Attach(file: FileData, path: Path)
      requires Valid() && path in universe && path !in handles && forall p | p in handles :: handles[p] != file
      modifies `handles, file`path, table, table.table, table.Repr
      ensures Valid() && fresh(table.Repr - old(table.Repr))
      ensures handles == old(handles)[path := file]
      ensures FilesOf(handles) == old(FilesOf(handles))[path := FileOf(file)]
    {
      hide TableHolds, FilesOf;
      file.path := path;
      Enter(path, file);
      handles := handles[path := file];
      FilesWith(old(FilesOf(handles)), old(handles), path, file);
    }

    // fu_add_file, for a path that is not stored
    method AddFile(file: FileData, path: Path) returns (ok: bool)
      requires Valid() && path in universe && path !in handles && forall p | p in handles :: handles[p] != file
      modifies this, file`path, table, table.table, table.Repr
      ensures Valid() && fresh(table.Repr - old(table.Repr))
      ensures ok <==> AddFits(old(Abs()), FileOf(file))
      ensures handles == if ok then old(handles)[path := file] else old(handles)
      ensures Abs() == Store.AddFile(old(Abs()), path, FileOf(file))
    {
      hide Valid, FilesOf, SizeT;
      if FilesAvailable() == 0 || |file.data| > BytesAvailable() {
        return false;
      }
      Attach(file, path);
      SetCounters(SizeT(currFiles + 1), SizeT(currBytes + |file.data|));
      return true;
    }

    // Take a stored file out of the table and off the accounts.
    method Detach(file: FileData, path: Path)
      requires Valid() && path in universe && path in handles && handles[path] == file
      modifies this, table, table.table, table.Repr
      ensures Valid() && table.Repr == old(table.Repr)
      ensures handles == old(handles) - {path}
      ensures Abs() == Store.RemoveFile(old(Abs()), path)
    {
      hide TableHolds, FilesOf, SizeT, UInt;
      Strike(path);
      handles := handles - {path};
      currFiles := SizeT(currFiles - 1);
      currBytes := SizeT(currBytes - |file.data|);
      FilesWithout(old(FilesOf(handles)), old(handles), path);
    }

    // fu_remove_file
    method RemoveFile(path: Path) returns (ok: bool)
      requires Valid() && path in universe
      modifies this, table, table.table, table.Repr, handles.Values`info
      ensures Valid() && table.Repr == old(table.Repr)
      ensures ok <==> path in old(handles)
      ensures handles == old(handles) - {path}
      ensures Abs() == Store.RemoveFile(old(Abs()), path)
    {
      hide TableHolds, FilesOf, SizeT, UInt;
      RemoveTouched(Abs(), path);
      var file := GetFile(path);
      if file == null {
        assert handles - {path} == handles;
        return false;
      }
      Detach(file, path);
      return true;
    }

    // The end of fu_writefile: the new contents and the new total.
    method SetContents(file: FileData, data: seq<Byte>, total: nat)
      requires Valid() && file.path in handles && handles[file.path] == file
      modifies `currBytes, file`data
      ensures Valid()
      ensures var was := old(Abs());
              Abs() == was.(files := was.files[file.path := old(FileOf(file)).(data := data)], currBytes := total)
    {
      hide TableHolds, FilesOf;
      currBytes := total;
      file.data := data;
      FilesChangeAt(old(FilesOf(handles)), handles, file.path);
    }

    // fu_writefile
    method WriteFile(file: FileData, i: nat, data: seq<Byte>) returns (ok: bool)
      requires Valid() && file.path in handles && handles[file.path] == file
      modifies `currBytes, file`info, file`data
      ensures Valid()
      ensures ok <==> WriteAccepted(old(Abs()), old(FileOf(file)), i, data)
      ensures Abs() == Store.WriteFile(old(Abs()), file.path, i, data)
    {
      hide Valid, FilesOf, SizeT, UInt;
      StoredAs(file);
      if data == [] || i > |file.data| {
        return false;
      }
      CountAccess(file);
      StoredAs(file);
      var newSize := SizeT(i + |data|);
      var total := SizeT(currBytes + SizeT(newSize - |file.data|));
      if total > maxBytes {
        return false;
      }
      SetContents(file, file.data[..i] + data, total);
      return true;
    }

    lemma StoredAs(file: FileData)
      requires Valid() && file.path in handles && handles[file.path] == file
      ensures file.path in Abs().files && Abs().files[file.path] == FileOf(file)
    {
    }
  }

  // fu_init_file_storage; null when it refuses its parameters
  method InitFileStorage(maxFiles: nat, maxBytes: nat, ghost universe: iset<Path>) returns (s: FileStorage?)
    requires maxFiles < SIZE_MOD && maxBytes < SIZE_MOD && PrefixFree(maxFiles / 4 + 1, universe)
    ensures s == null <==> maxFiles == 0 || maxBytes == 0
    ensures s != null ==>
              && fresh(s) && s.Valid() && s.universe == universe && Inv(s.Abs())
              && s.Abs() == InitStorage(maxFiles, maxBytes)
              && s.handles == map[] && s.maxFiles == maxFiles && s.maxBytes == maxBytes && s.currFiles == s.currBytes == 0
              && |s.table.Contents()| == maxFiles / 4 + 1
  {
    if maxFiles == 0 || maxBytes == 0 {
      return null;
    }
    s := new FileStorage(maxFiles, maxBytes, universe);
  }
}
