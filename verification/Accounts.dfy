/** The accounts of the storage: the two counters agree with what is stored, in every reachable
    state, although they are kept with wrapping arithmetic. */
module Accounts {
  import opened Words
  import opened Paths
  import opened Store

  // ------------------------------------------------------------------------ the sum of sizes

  lemma {:induction false} BytesWithout(files: Files, p: Path)
    requires p in files
    ensures Bytes(files) == |files[p].data| + Bytes(files - {p})
    decreases |files|
  {
    var q :| q in files && Bytes(files) == |files[q].data| + Bytes(files - {q});
    if p != q {
      BytesWithout(files - {q}, p);
      BytesWithout(files - {p}, q);
      assert files - {q} - {p} == files - {p} - {q};
    }
  }

  lemma BytesUpdate(files: Files, p: Path, f: File)
    ensures Bytes(files[p := f]) == Bytes(files) + |f.data| - (if p in files then |files[p].data| else 0)
  {
    BytesWithout(files[p := f], p);
    if p in files {
      BytesWithout(files, p);
      assert files[p := f] - {p} == files - {p};
    } else {
      assert files[p := f] - {p} == files;
    }
  }

  lemma SizeWithin(files: Files, p: Path)
    requires p in files
    ensures |files[p].data| <= Bytes(files)
  {
  }

  // ------------------------------------------------------------------- the storage operations

  // Replacing a file by one of the same size.
  lemma UpdateKeepsInv(s: Storage, p: Path, f: File)
    requires Inv(s) && p in s.files && |f.data| == |s.files[p].data|
    ensures Inv(s.(files := s.files[p := f]))
  {
    BytesUpdate(s.files, p, f);
    assert s.files[p := f].Keys == s.files.Keys;
    assert |s.files[p := f].Keys| == |s.files.Keys|;
  }

  lemma TouchKeepsInv(s: Storage, p: Path)
    requires Inv(s)
    ensures Inv(Touch(s, p)) && Touch(s, p).files.Keys == s.files.Keys
  {
    if p in s.files {
      UpdateKeepsInv(s, p, Touched(s.files[p]));
    }
  }

  lemma AddKeepsInv(s: Storage, p: Path, f: File)
    requires Inv(s) && p !in s.files
    ensures Inv(AddFile(s, p, f))
    ensures AddFits(s, f) <==> s.currFiles < s.maxFiles && s.currBytes + |f.data| <= s.maxBytes
  {
    BytesUpdate(s.files, p, f);
    assert s.files[p := f].Keys == s.files.Keys + {p};
  }

  lemma RemoveKeepsInv(s: Storage, p: Path)
    requires Inv(s)
    ensures Inv(RemoveFile(s, p))
    ensures p in s.files ==> RemoveFile(s, p).currBytes == s.currBytes - |s.files[p].data|
    ensures p in s.files ==> RemoveFile(s, p).currFiles == s.currFiles - 1
  {
    if p in s.files {
      BytesWithout(s.files, p);
      assert (s.files - {p}).Keys == s.files.Keys - {p};
      assert |s.files.Keys - {p}| == |s.files.Keys| - 1;
    }
  }

  /** The new total of fu_writefile is computed through differences that wrap around below zero
      when a file shrinks. However often that happens, the result is the exact total, as long as
      the exact total is a size_t. */
  lemma NewTotalIsExact(s: Storage, f: File, i: nat, data: seq<Byte>)
    ensures NewTotal(s, f, i, data) == SizeT(s.currBytes - |f.data| + i + |data|)
  {
  }

  lemma WriteKeepsInv(s: Storage, p: Path, i: nat, data: seq<Byte>)
    requires Inv(s) && p in s.files
    requires s.currBytes - |s.files[p].data| + i + |data| < SIZE_MOD
    ensures Inv(WriteFile(s, p, i, data))
    ensures WriteAccepted(s, s.files[p], i, data) <==>
            data != [] && i <= |s.files[p].data| && s.currBytes - |s.files[p].data| + i + |data| <= s.maxBytes
  {
    var f := s.files[p];
    SizeWithin(s.files, p);
    NewTotalIsExact(s, f, i, data);
    if WriteAccepted(s, f, i, data) {
      var g := Touched(f).(data := f.data[..i] + data);
      BytesUpdate(s.files, p, g);
      assert s.files[p := g].Keys == s.files.Keys;
      assert |s.files[p := g].Keys| == |s.files.Keys|;
    } else {
      TouchKeepsInv(s, p);
    }
  }

  lemma {:induction false} RemoveAllKeepsInv(s: Storage, paths: seq<Path>)
    requires Inv(s)
    ensures Inv(RemoveAll(s, paths))
    decreases |paths|
  {
    if paths == [] {
    } else {
      RemoveKeepsInv(s, paths[0]);
      RemoveAllKeepsInv(RemoveFile(s, paths[0]), paths[1..]);
    }
  }

  lemma {:induction false} TouchAllKeepsInv(s: Storage, paths: seq<Path>)
    requires Inv(s)
    ensures Inv(TouchAll(s, paths))
    decreases |paths|
  {
    if paths == [] {
    } else {
      TouchKeepsInv(s, paths[0]);
      TouchAllKeepsInv(Touch(s, paths[0]), paths[1..]);
    }
  }

  lemma DistinctTail(paths: seq<Path>)
    requires paths != [] && Distinct(paths)
    ensures Distinct(paths[1..]) && paths[0] !in paths[1..]
    ensures PathSet(paths) == {paths[0]} + PathSet(paths[1..])
  {
  }

  lemma {:induction false} SizesUnaffected(a: Files, b: Files, paths: seq<Path>)
    requires forall p | p in paths :: Size(a, p) == Size(b, p)
    ensures Sizes(a, paths) == Sizes(b, paths)
  {
    if paths == [] {
    } else {
      assert paths[0] in paths;
      SizesUnaffected(a, b, paths[1..]);
    }
  }

  lemma {:induction false} RemoveAllFiles(s: Storage, paths: seq<Path>)
    ensures RemoveAll(s, paths).files == s.files - PathSet(paths)
    ensures RemoveAll(s, paths).maxBytes == s.maxBytes && RemoveAll(s, paths).maxFiles == s.maxFiles
    decreases |paths|
  {
    if paths == [] {
      assert s.files - {} == s.files;
    } else {
      var s1 := RemoveFile(s, paths[0]);
      RemoveAllFiles(s1, paths[1..]);
      assert paths == [paths[0]] + paths[1..];
      assert PathSet(paths) == {paths[0]} + PathSet(paths[1..]);
      assert s1.files == s.files - {paths[0]};
      assert s.files - {paths[0]} - PathSet(paths[1..]) == s.files - PathSet(paths);
    }
  }

  // Removing distinct stored files lowers the counters by exactly what is removed.
  lemma {:induction false} RemoveAllCounts(s: Storage, paths: seq<Path>)
    requires Inv(s) && PathSet(paths) <= s.files.Keys && Distinct(paths)
    ensures RemoveAll(s, paths).currBytes == s.currBytes - Sizes(s.files, paths)
    ensures RemoveAll(s, paths).currFiles == s.currFiles - |paths|
    decreases |paths|
  {
    if paths == [] {
    } else {
      var p, tail := paths[0], paths[1..];
      DistinctTail(paths);
      assert p in PathSet(paths);
      RemoveKeepsInv(s, p);
      var s1 := RemoveFile(s, p);
      assert PathSet(tail) <= s1.files.Keys;
      RemoveAllCounts(s1, tail);
      SizesUnaffected(s.files, s1.files, tail);
    }
  }
}
