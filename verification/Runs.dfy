/** What holds over every run of requests by any number of clients, each request one atomic step. */
module Runs {
  import opened Words
  import opened Paths
  import opened Streams
  import opened Store
  import opened Accounts
  import opened Eviction

  ghost predicate LegalRun(s: Storage, requests: seq<Request>)
    decreases |requests|
  {
    requests != [] ==> Legal(s, requests[0]) && LegalRun(Step(s, requests[0]).store, requests[1..])
  }

  ghost function After(s: Storage, requests: seq<Request>): Storage
    decreases |requests|
  {
    if requests == [] then s else After(Step(s, requests[0]).store, requests[1..])
  }

  // ------------------------------------------------------------------------ exact accounting

  lemma OpenKeepsInv(s: Storage, client: nat, path: Path, create: bool, lock: bool)
    requires Inv(s)
    ensures Inv(DoOpen(s, client, path, create, lock).store)
  {
    if path in s.files {
      TouchKeepsInv(s, path);
      var t := Touch(s, path);
      UpdateKeepsInv(t, path, t.files[path].(client := client, info := MaskLock(t.files[path].info, lock)));
    } else {
      AddKeepsInv(s, path, File([], client, MaskLock(0, lock)));
    }
  }

  lemma CloseKeepsInv(s: Storage, client: nat, path: Path)
    requires Inv(s)
    ensures Inv(DoClose(s, client, path).store)
  {
    TouchKeepsInv(s, path);
    if path in s.files {
      var t := Touch(s, path);
      UpdateKeepsInv(t, path, t.files[path].(client := FREE));
    }
  }

  lemma StepKeepsInv(s: Storage, r: Request)
    requires Inv(s) && Legal(s, r)
    ensures Inv(Step(s, r).store)
  {
    if r.client != 0 {
      match r
      case Open(c, p, create, lock) => OpenKeepsInv(s, c, p, create, lock);
      case Close(c, p) => CloseKeepsInv(s, c, p);
      case Read(c, p) => TouchKeepsInv(s, p);
      case ReadN(c, n, order, busy) => TouchAllKeepsInv(s, Picked(s.files, order, n, busy));
      case Write(c, p, append, data, busy, plan, sendBack) =>
        if p in s.files && s.files[p].client == c {
          WriteChangesOnlyItsFile(s, c, p, append, data, busy, plan, sendBack);
        } else {
          TouchKeepsInv(s, p);
        }
      case Remove(c, p) =>
        TouchKeepsInv(s, p);
        RemoveKeepsInv(Touch(s, p), p);
      case Other(_, _) =>
    }
  }

  lemma {:induction false} RunKeepsInv(s: Storage, requests: seq<Request>)
    requires Inv(s) && LegalRun(s, requests)
    ensures Inv(After(s, requests))
    decreases |requests|
  {
    if requests == [] {
    } else {
      StepKeepsInv(s, requests[0]);
      RunKeepsInv(Step(s, requests[0]).store, requests[1..]);
    }
  }

  lemma {:induction false} TouchAllKeepsLimits(s: Storage, paths: seq<Path>)
    ensures TouchAll(s, paths).maxFiles == s.maxFiles && TouchAll(s, paths).maxBytes == s.maxBytes
    decreases |paths|
  {
    if paths != [] {
      TouchAllKeepsLimits(Touch(s, paths[0]), paths[1..]);
    }
  }

  lemma EvictKeepsLimits(s: Storage, client: nat, busy: set<Path>, plan: seq<Path>, need: nat, sendBack: bool)
    ensures var e := Evict(s, client, busy, plan, need, sendBack); e.store.maxFiles == s.maxFiles && e.store.maxBytes == s.maxBytes
  {
    RemoveAllFiles(s, Victims(s.files, client, busy, plan, need));
  }

  lemma WriteKeepsLimits(s: Storage, client: nat, path: Path, append: bool, data: seq<Byte>,
                         busy: set<Path>, plan: seq<Path>, sendBack: bool)
    ensures var o := DoWrite(s, client, path, append, data, busy, plan, sendBack);
            o.store.maxFiles == s.maxFiles && o.store.maxBytes == s.maxBytes
  {
    hide Evict, EncodeWord, NewTotal, WriteAccepted, UInt;
    var t := Touch(s, path);
    if BytesAvailable(t) < |data| {
      EvictKeepsLimits(t, client, busy + {path}, plan, |data| - BytesAvailable(t), sendBack);
    }
  }

  // No request changes the limits.
  lemma StepKeepsLimits(s: Storage, r: Request)
    ensures Step(s, r).store.maxFiles == s.maxFiles && Step(s, r).store.maxBytes == s.maxBytes
  {
    hide DoWrite, EncodeWord;
    if r.client != 0 {
      match r
      case ReadN(c, n, order, busy) => TouchAllKeepsLimits(s, Picked(s.files, order, n, busy));
      case Write(c, p, append, data, busy, plan, sendBack) => WriteKeepsLimits(s, c, p, append, data, busy, plan, sendBack);
      case _ =>
    }
  }

  lemma {:induction false} RunKeepsLimits(s: Storage, requests: seq<Request>)
    ensures After(s, requests).maxFiles == s.maxFiles && After(s, requests).maxBytes == s.maxBytes
    decreases |requests|
  {
    if requests != [] {
      StepKeepsLimits(s, requests[0]);
      RunKeepsLimits(Step(s, requests[0]).store, requests[1..]);
    }
  }

  /** From an empty storage with the given limits, after any run of requests, the counters equal the
      number and the total size of the stored files, and these are within the given limits: no
      wrap-around of a size_t ever reaches them. */
  lemma AccountsAreExact(maxFiles: nat, maxBytes: nat, requests: seq<Request>)
    requires maxFiles < SIZE_MOD && maxBytes < SIZE_MOD
    requires LegalRun(InitStorage(maxFiles, maxBytes), requests)
    ensures var s := After(InitStorage(maxFiles, maxBytes), requests);
            && Inv(s) && s.maxFiles == maxFiles && s.maxBytes == maxBytes
            && s.currFiles == |s.files| <= maxFiles
            && s.currBytes == Bytes(s.files) <= maxBytes
  {
    RunKeepsInv(InitStorage(maxFiles, maxBytes), requests);
    RunKeepsLimits(InitStorage(maxFiles, maxBytes), requests);
  }

  // ------------------------------------------------------------------------------ ownership

  predicate Holds(s: Storage, client: nat, path: Path) {
    path in s.files && s.files[path].client == client
  }

  // The step of `client` by which it gives the file up: it closes it, removes it, or asks for a write
  // of another of its files for which the eviction takes this one.
  ghost predicate LetsGo(s: Storage, r: Request, client: nat, path: Path) {
    r.client == client &&
    match r
    case Close(_, p) => p == path
    case Remove(_, p) => p == path
    case Write(_, p, _, data, busy, plan, _) =>
      Holds(s, client, p) && path in Casualties(Touch(s, p), client, p, data, busy, plan)
    case _ => false
  }

  // What a step makes of the contents of a file: only a successful write of its holder counts.
  ghost function ContentsAfter(s: Storage, r: Request, client: nat, path: Path, was: seq<Byte>): seq<Byte> {
    if r.client == client && r.Write? && r.path == path && Step(s, r).ok then NewContents(r.append, was, r.data) else was
  }

  lemma {:induction false} TouchAllOnlyCounts(s: Storage, paths: seq<Path>, path: Path)
    requires path in s.files
    ensures path in TouchAll(s, paths).files
    ensures TouchAll(s, paths).files[path].(info := 0) == s.files[path].(info := 0)
    decreases |paths|
  {
    if paths == [] {
    } else {
      TouchAllOnlyCounts(Touch(s, paths[0]), paths[1..], path);
    }
  }

  // The files that a write makes the server evict: those of its eviction, if it comes from the holder.
  ghost function GoneIn(s: Storage, r: Request): seq<Path>
    requires r.Write?
  {
    if Holds(s, r.client, r.path) then Casualties(Touch(s, r.path), r.client, r.path, r.data, r.busy, r.plan) else []
  }

  // What a write by anybody does to the contents and the holders of all files.
  ghost predicate WriteSeen(s: Storage, r: Request, o: Outcome)
    requires r.Write?
  {
    && o.store.files.Keys == s.files.Keys - PathSet(GoneIn(s, r))
    && (o.ok ==> Holds(s, r.client, r.path))
    && (forall q | q in o.store.files ::
          && o.store.files[q].client == s.files[q].client
          && o.store.files[q].data == if q == r.path && o.ok then NewContents(r.append, s.files[q].data, r.data) else s.files[q].data)
  }

  lemma WriteIsSeen(s: Storage, r: Request)
    requires Inv(s) && Legal(s, r) && r.client != 0 && r.Write?
    ensures WriteSeen(s, r, Step(s, r))
  {
    hide Inv, Enumerates, WriteHeld, Casualties, EncodeWord;
    if Holds(s, r.client, r.path) {
      WriteChangesOnlyItsFile(s, r.client, r.path, r.append, r.data, r.busy, r.plan, r.sendBack);
    }
  }

  // A file that another client holds is no casualty of a write, and neither is the file written.
  lemma SparedInWrite(s: Storage, r: Request, client: nat, path: Path)
    requires r.Write? && Holds(s, client, path) && (r.client != client || r.path == path)
    ensures path !in GoneIn(s, r)
  {
  }

  // A write, seen from a file that its client does not write.
  lemma WriteSparesHeldFile(s: Storage, r: Request, client: nat, path: Path)
    requires Inv(s) && Legal(s, r) && Holds(s, client, path) && r.client != 0 && r.Write?
    requires r.path != path || r.client != client
    ensures var t := Step(s, r).store;
            && (path in t.files ==> t.files[path].data == s.files[path].data && t.files[path].client == client)
            && (r.client != client ==> path in t.files)
  {
    hide Step, GoneIn, Inv, Legal;
    WriteIsSeen(s, r);
    if r.client != client {
      SparedInWrite(s, r, client, path);
    }
  }

  // What a step does to a file that a client holds.
  ghost predicate HolderRespected(s: Storage, r: Request, o: Outcome, client: nat, path: Path)
    requires path in s.files
  {
    && (Holds(o.store, client, path) <==> !LetsGo(s, r, client, path))
    && (Holds(o.store, client, path) ==>
          o.store.files[path].data ==
          if r.client == client && r.Write? && r.path == path && o.ok then NewContents(r.append, s.files[path].data, r.data)
          else s.files[path].data)
  }

  lemma WriteRespectsHolder(s: Storage, r: Request, client: nat, path: Path)
    requires Inv(s) && Legal(s, r) && Holds(s, client, path) && client != 0 && r.client != 0 && r.Write?
    ensures HolderRespected(s, r, Step(s, r), client, path)
  {
    hide Step, Inv, Legal, Casualties;
    WriteIsSeen(s, r);
    if r.client != client || r.path == path {
      SparedInWrite(s, r, client, path);
    }
  }

  lemma OtherStepRespectsHolder(s: Storage, r: Request, client: nat, path: Path)
    requires Holds(s, client, path) && client != 0 && r.client != 0 && !r.Write?
    ensures HolderRespected(s, r, Step(s, r), client, path)
  {
    hide EncodeWord, SendData, UInt;
    match r
    case ReadN(c, n, order, busy) => TouchAllOnlyCounts(s, Picked(s.files, order, n, busy), path);
    case _ =>
  }

  /** One step, seen from a file that a client holds. The step ends that exactly when it is the
      holder's own close or removal of the file, or a write of the holder to another of its files
      for which the eviction takes this one. Otherwise the contents change by the holder's own
      successful write and in no other way. */
  lemma StepRespectsHolder(s: Storage, r: Request, client: nat, path: Path)
    requires Inv(s) && Legal(s, r) && Holds(s, client, path) && client != 0
    ensures Holds(Step(s, r).store, client, path) <==> !LetsGo(s, r, client, path)
    ensures Holds(Step(s, r).store, client, path) ==>
              Step(s, r).store.files[path].data == ContentsAfter(s, r, client, path, s.files[path].data)
  {
    if r.client != 0 {
      hide Step, LetsGo, Inv, Legal;
      if r.Write? {
        WriteRespectsHolder(s, r, client, path);
      } else {
        OtherStepRespectsHolder(s, r, client, path);
      }
    }
  }

  ghost predicate KeepsHolding(s: Storage, requests: seq<Request>, client: nat, path: Path)
    decreases |requests|
  {
    requests != [] ==>
      !LetsGo(s, requests[0], client, path) && KeepsHolding(Step(s, requests[0]).store, requests[1..], client, path)
  }

  // The client's own successful writes and appends of the run, folded in order.
  ghost function OwnWrites(s: Storage, requests: seq<Request>, client: nat, path: Path, was: seq<Byte>): seq<Byte>
    decreases |requests|
  {
    if requests == [] then was
    else
      OwnWrites(Step(s, requests[0]).store, requests[1..], client, path,
                ContentsAfter(s, requests[0], client, path, was))
  }

  /** Ownership over every run, by any number of clients. A client that holds a file and does not
      itself give it up still holds it at the end, and the file then contains what it contained at
      the start with exactly the client's own successful writes and appends applied in order. */
  lemma {:induction false} HeldFileBelongsToHolder(s: Storage, requests: seq<Request>, client: nat, path: Path)
    requires Inv(s) && LegalRun(s, requests) && client != 0 && Holds(s, client, path)
    requires KeepsHolding(s, requests, client, path)
    ensures Holds(After(s, requests), client, path)
    ensures After(s, requests).files[path].data == OwnWrites(s, requests, client, path, s.files[path].data)
    decreases |requests|
  {
    if requests == [] {
    } else {
      StepRespectsHolder(s, requests[0], client, path);
      StepKeepsInv(s, requests[0]);
      HeldFileBelongsToHolder(Step(s, requests[0]).store, requests[1..], client, path);
    }
  }

  /** In particular a descriptor from which no request comes keeps its files: whatever is asked from
      the other descriptors, it can neither change them nor take them away. To the storage a client is
      the number of its descriptor; Connections.dfy tells what becomes of that when the number is
      used again. */
  lemma {:induction false} SilentHolderLosesNothing(s: Storage, requests: seq<Request>, client: nat, path: Path)
    requires Inv(s) && LegalRun(s, requests) && client != 0 && Holds(s, client, path)
    requires forall r | r in requests :: r.client != client
    ensures Holds(After(s, requests), client, path)
    ensures After(s, requests).files[path].data == s.files[path].data
    decreases |requests|
  {
    if requests == [] {
    } else {
      assert requests[0] in requests;
      StepRespectsHolder(s, requests[0], client, path);
      StepKeepsInv(s, requests[0]);
      SilentHolderLosesNothing(Step(s, requests[0]).store, requests[1..], client, path);
    }
  }

  // No two clients hold the same file, and opening is the only way to become its holder.
  lemma OnlyOpenMakesAHolder(s: Storage, r: Request, client: nat, path: Path)
    requires Inv(s) && Legal(s, r) && !Holds(s, client, path) && Holds(Step(s, r).store, client, path)
    ensures r.Open? && r.client == client && r.path == path && Step(s, r).ok
    ensures path !in s.files || s.files[path].client == FREE
  {
    if r.client != 0 && r.Write? {
      hide Step, GoneIn, Inv, Legal;
      WriteIsSeen(s, r);
    } else if r.client != 0 && r.ReadN? {
      hide TouchAll, Picked, Inv;
      var picked := Picked(s.files, r.order, r.n, r.busy);
      TouchAllStoresNothing(s, picked);
      if path in s.files {
        TouchAllOnlyCounts(s, picked, path);
      }
    } else {
      hide EncodeWord, SendData, UInt, Inv;
    }
  }

  lemma {:induction false} TouchAllStoresNothing(s: Storage, paths: seq<Path>)
    ensures TouchAll(s, paths).files.Keys == s.files.Keys
    decreases |paths|
  {
    if paths == [] {
    } else {
      TouchAllStoresNothing(Touch(s, paths[0]), paths[1..]);
    }
  }

  // ---------------------------------------------------------------------------- opening, reading

  /** An open of a path that is not stored succeeds exactly when the client asks for the file to be
      created and neither the slots nor the space are used up: once openFile's own check is passed,
      fu_add_file does not fail. Then there is one more file, empty, never accessed and held by the
      client; otherwise nothing changes at all. */
  lemma CreateSucceedsIff(s: Storage, client: nat, path: Path, create: bool, lock: bool)
    requires Inv(s) && path !in s.files
    ensures var o := DoOpen(s, client, path, create, lock);
            && (o.ok <==> create && |s.files| < s.maxFiles && Bytes(s.files) < s.maxBytes)
            && (!o.ok ==> o.store == s)
            && (o.ok ==> o.store.files == s.files[path := File([], client, 0)])
  {
    AddKeepsInv(s, path, File([], client, MaskLock(0, lock)));
  }

  /** A stored file is opened exactly when nobody has it open. */
  lemma OpenSucceedsIff(s: Storage, client: nat, path: Path, create: bool, lock: bool)
    requires path in s.files
    ensures var o := DoOpen(s, client, path, create, lock);
            && (o.ok <==> s.files[path].client == FREE)
            && (o.ok ==> Holds(o.store, client, path))
            && path in o.store.files && o.store.files[path].data == s.files[path].data
            && o.store.files - {path} == s.files - {path}
  {
  }

  /** Removing a file that was just created leaves the storage exactly as it was, counters included. */
  lemma RemoveUndoesCreate(s: Storage, client: nat, path: Path, lock: bool)
    requires Inv(s) && path !in s.files && DoOpen(s, client, path, true, lock).ok
    ensures DoRemove(DoOpen(s, client, path, true, lock).store, client, path) == Outcome(s, true, EncodeWord(SAPI_SUCCESS))
  {
    var t := DoOpen(s, client, path, true, lock).store;
    AddKeepsInv(s, path, File([], client, MaskLock(0, lock)));
    assert Touch(t, path).files - {path} == s.files;
  }

  /** Closing undoes opening, but for the access counts and the lock bit of that file. */
  lemma CloseUndoesOpen(s: Storage, client: nat, path: Path, create: bool, lock: bool)
    requires path in s.files && DoOpen(s, client, path, create, lock).ok
    ensures var o := DoClose(DoOpen(s, client, path, create, lock).store, client, path);
            && o.ok && path in o.store.files
            && o.store.(files := o.store.files[path := s.files[path]]) == s
            && o.store.files[path].(info := 0) == s.files[path].(info := 0)
  {
    var o := DoClose(DoOpen(s, client, path, create, lock).store, client, path);
    assert o.store.files[path := s.files[path]] == s.files;
  }

  /** A removal succeeds for a stored file exactly when the client holds it, and then takes that
      file and nothing else out of the storage and off the counters. */
  lemma RemoveIsExact(s: Storage, client: nat, path: Path)
    requires Inv(s) && path in s.files
    ensures var o := DoRemove(s, client, path);
            && (o.ok <==> Holds(s, client, path))
            && o.store.files - {path} == s.files - {path}
            && (path in o.store.files <==> !o.ok)
            && (o.ok ==> o.store.currBytes == s.currBytes - |s.files[path].data| && o.store.currFiles == s.currFiles - 1)
  {
    TouchKeepsInv(s, path);
    RemoveKeepsInv(Touch(s, path), path);
  }

  // Descriptor 0 owns nothing.
  ghost predicate NoZeroOwner(s: Storage) {
    forall p | p in s.files :: s.files[p].client != 0
  }

  lemma NobodyBecomesZero(s: Storage, r: Request)
    requires Inv(s) && Legal(s, r) && NoZeroOwner(s)
    ensures NoZeroOwner(Step(s, r).store)
  {
    hide Inv, Legal, DoOpen, DoClose, DoRead, DoReadN, DoWrite, DoRemove;
    var t := Step(s, r).store;
    forall p | p in t.files ensures t.files[p].client != 0 {
      if Holds(t, 0, p) {
        OnlyOpenMakesAHolder(s, r, 0, p);
      }
    }
  }

  lemma {:induction false} ZeroOwnsNothing(s: Storage, requests: seq<Request>)
    requires Inv(s) && LegalRun(s, requests) && NoZeroOwner(s)
    ensures NoZeroOwner(After(s, requests))
    decreases |requests|
  {
    if requests == [] {
    } else {
      NobodyBecomesZero(s, requests[0]);
      StepKeepsInv(s, requests[0]);
      ZeroOwnsNothing(Step(s, requests[0]).store, requests[1..]);
    }
  }

  /** In every state that a run reaches, a read is granted to the client that holds the file and to
      nobody else, whatever the lock bit says. */
  lemma OnlyTheHolderReads(maxFiles: nat, maxBytes: nat, requests: seq<Request>, client: nat, path: Path)
    requires maxFiles < SIZE_MOD && maxBytes < SIZE_MOD && client != 0
    requires LegalRun(InitStorage(maxFiles, maxBytes), requests)
    ensures var s := After(InitStorage(maxFiles, maxBytes), requests);
            Step(s, Read(client, path)).ok <==> Holds(s, client, path)
  {
    ZeroOwnsNothing(InitStorage(maxFiles, maxBytes), requests);
  }

  /** Reading back: the holder of a file reads what was in it when it became the holder, with its own
      successful writes and appends since then applied in order. */
  lemma HolderReadsItsWrites(s: Storage, requests: seq<Request>, client: nat, path: Path)
    requires Inv(s) && LegalRun(s, requests) && client != 0 && Holds(s, client, path)
    requires KeepsHolding(s, requests, client, path)
    ensures var o := Step(After(s, requests), Read(client, path));
            o.ok && o.sent == EncodeWord(SAPI_SUCCESS) + SendData(OwnWrites(s, requests, client, path, s.files[path].data))
  {
    HeldFileBelongsToHolder(s, requests, client, path);
  }
}
