/** The access counts on which the order of eviction rests: what data_info means over a run, and that
    the files an eviction takes are the most accessed ones. The accesses are counted from the requests,
    not from what the operations do to the count. */
module Accesses {
  import opened Words
  import opened Paths
  import opened Streams
  import opened Store
  import opened Accounts
  import opened Eviction
  import opened EvictPlans
  import opened Runs
  import opened Clients

  function One(b: bool): nat { if b then 1 else 0 }

  // The write goes through: it comes from the holder, there is something to write and room for it.
  ghost predicate GoesThrough(s: Storage, r: Request)
    requires r.Write?
  {
    && Holds(s, r.client, r.path) && r.data != []
    && Bytes(Kept(s.files, r.client, r.path, r.busy)) + |r.data| <= s.maxBytes
  }

  // How often a request accesses a stored file: once when it looks the path up, once more when it
  // writes, and once when it sends the file among the first n.
  ghost function AccessesIn(s: Storage, r: Request, path: Path): nat {
    if r.client == 0 || r.Other? then 0
    else if r.ReadN? then One(path in FirstLockable(s.files, r.order, r.busy, r.n))
    else if r.path != path then 0
    else 1 + One(r.Write? && GoesThrough(s, r))
  }

  // Opening with O_LOCK is meant to set a bit and clears the count instead.
  predicate Locks(r: Request, path: Path) {
    r.Open? && r.lock && r.path == path
  }

  // The count of the file is so many more, modulo 2^32.
  ghost predicate CountedUp(s: Storage, t: Storage, path: Path, n: nat)
    requires path in s.files && path in t.files
  {
    t.files[path].info == (s.files[path].info + n) % 0x1_0000_0000
  }

  // --------------------------------------------------------------------------- one request

  lemma {:induction false} TouchAllCounts(s: Storage, paths: seq<Path>, path: Path)
    requires path in s.files && Distinct(paths) && s.files[path].info < UINT_MOD
    ensures path in TouchAll(s, paths).files
    ensures CountedUp(s, TouchAll(s, paths), path, One(path in paths))
    decreases |paths|
  {
    if paths != [] {
      DistinctTail(paths);
      TouchAllCounts(Touch(s, paths[0]), paths[1..], path);
    }
  }

  lemma ReadNCounts(s: Storage, r: Request, path: Path)
    requires Legal(s, r) && r.ReadN? && r.client != 0 && path in s.files && s.files[path].info < UINT_MOD
    ensures path in Step(s, r).store.files && CountedUp(s, Step(s, r).store, path, AccessesIn(s, r, path))
  {
    hide TouchAll, Lockable;
    LockableOnce(s.files, r.order, r.busy);
    PickedIsPrefix(s.files, r.order, r.n, r.busy);
    TouchAllCounts(s, Picked(s.files, r.order, r.n, r.busy), path);
  }

  // After the lookup: the target counts a write that goes through, and other files nothing.
  lemma HeldWriteCounts(s: Storage, r: Request, path: Path)
    requires Inv(s) && r.Write? && Holds(s, r.client, r.path) && Enumerates(s.files, r.plan)
    ensures var o := WriteHeld(s, r.client, r.path, r.append, r.data, r.busy, r.plan, r.sendBack);
            && WriteCounted(s, o, r.path)
            && (path in o.store.files && path != r.path ==> path in s.files && o.store.files[path] == s.files[path])
  {
    hide WriteHeld, Inv, Enumerates, Casualties, RoomCanBeMade, WriteCounted;
    WriteHeldIsExact(s, r.client, r.path, r.append, r.data, r.busy, r.plan, r.sendBack);
  }

  lemma HeldStep(s: Storage, r: Request)
    requires r.Write? && r.client != 0 && Holds(s, r.client, r.path)
    ensures Holds(Touch(s, r.path), r.client, r.path)
    ensures Step(s, r) == WriteHeld(Touch(s, r.path), r.client, r.path, r.append, r.data, r.busy, r.plan, r.sendBack)
  {
    hide WriteHeld;
  }

  // A write succeeds exactly when it goes through.
  lemma OkIffGoesThrough(s: Storage, r: Request)
    requires Inv(s) && Legal(s, r) && r.Write? && r.client != 0
    ensures Step(s, r).ok <==> GoesThrough(s, r)
  {
    hide WriteHeld, Inv, Enumerates, Kept, EncodeWord;
    if Holds(s, r.client, r.path) {
      WriteSucceedsIff(s, r.client, r.path, r.append, r.data, r.busy, r.plan, r.sendBack);
    }
  }

  lemma CountOn(n: nat, k: nat)
    ensures (n % UINT_MOD + k) % UINT_MOD == (n + k) % UINT_MOD
  {
    var q, q' := n / UINT_MOD, (n % UINT_MOD + k) / UINT_MOD;
    assert n + k == UINT_MOD * (q + q') + (n % UINT_MOD + k) % UINT_MOD;
  }

  lemma TouchKeepsLegal(s: Storage, r: Request)
    requires Inv(s) && Legal(s, r) && r.Write?
    ensures Inv(Touch(s, r.path)) && Enumerates(Touch(s, r.path).files, r.plan)
  {
    TouchKeepsInv(s, r.path);
  }

  lemma TouchCounts(s: Storage, target: Path, path: Path)
    requires path in s.files && s.files[path].info < UINT_MOD
    ensures path in Touch(s, target).files
    ensures Touch(s, target).files[path].info == (s.files[path].info + One(path == target)) % UINT_MOD
  {
  }

  lemma OwnWriteCounts(s: Storage, r: Request, path: Path)
    requires Inv(s) && Legal(s, r) && r.Write? && r.client != 0 && Holds(s, r.client, r.path)
    requires path in s.files && path in Step(s, r).store.files && s.files[path].info < UINT_MOD
    ensures CountedUp(s, Step(s, r).store, path, AccessesIn(s, r, path))
  {
    hide Step, WriteHeld, Inv, GoesThrough, Touch, Legal, UInt;
    var t := Touch(s, r.path);
    TouchKeepsLegal(s, r);
    TouchCounts(s, r.path, path);
    hide Enumerates;
    HeldStep(s, r);
    HeldWriteCounts(t, r, path);
    OkIffGoesThrough(s, r);
    if path == r.path {
      CountOn(s.files[path].info + 1, 1);
    }
  }

  lemma WriteCounts(s: Storage, r: Request, path: Path)
    requires Inv(s) && Legal(s, r) && r.Write? && r.client != 0
    requires path in s.files && path in Step(s, r).store.files && s.files[path].info < UINT_MOD
    ensures CountedUp(s, Step(s, r).store, path, AccessesIn(s, r, path))
  {
    hide WriteHeld, Inv, Enumerates, EncodeWord, Kept;
    if Holds(s, r.client, r.path) {
      hide Step, AccessesIn;
      OwnWriteCounts(s, r, path);
    }
  }

  lemma OthersCount(s: Storage, r: Request, path: Path)
    requires !r.Write? && !r.ReadN? && !Locks(r, path) && r.client != 0
    requires path in s.files && path in Step(s, r).store.files && s.files[path].info < UINT_MOD
    ensures CountedUp(s, Step(s, r).store, path, AccessesIn(s, r, path))
  {
    hide EncodeWord, SendData;
  }

  // Every request counts exactly its accesses.
  lemma StepCounts(s: Storage, r: Request, path: Path)
    requires Inv(s) && Legal(s, r) && !Locks(r, path)
    requires path in s.files && path in Step(s, r).store.files && s.files[path].info < UINT_MOD
    ensures CountedUp(s, Step(s, r).store, path, AccessesIn(s, r, path))
  {
    if r.client != 0 {
      hide Step, AccessesIn, Inv, Legal, CountedUp;
      if r.Write? {
        WriteCounts(s, r, path);
      } else if r.ReadN? {
        ReadNCounts(s, r, path);
      } else {
        OthersCount(s, r, path);
      }
    }
  }

  /** A successful open with O_LOCK leaves of the count, the lookup included, only the bit of value 2. */
  lemma LockingClearsTheCount(s: Storage, r: Request)
    requires r.Open? && r.lock && r.client != 0 && r.path in s.files && Step(s, r).ok
    ensures Step(s, r).store.files[r.path].info == if (s.files[r.path].info + 1) % 4 >= 2 then 2 else 0
  {
    var n := s.files[r.path].info + 1;
    assert n % UINT_MOD % 4 == n % 4 by {
      Mod4(n);
    }
    Halves(n % UINT_MOD);
  }

  lemma Mod4(n: nat)
    ensures n % UINT_MOD % 4 == n % 4
  {
    var q := n / UINT_MOD;
    assert n == 4 * (0x4000_0000 * q) + n % UINT_MOD;
  }

  // A file that was not stored before the step is new.
  lemma NewFilesAreUncounted(s: Storage, r: Request, path: Path)
    requires Inv(s) && Legal(s, r) && path !in s.files && path in Step(s, r).store.files
    ensures Step(s, r).store.files[path] == File([], r.client, 0)
  {
    if r.client != 0 {
      if r.Write? {
        hide Step, Inv, Legal;
        WriteIsSeen(s, r);
      } else if r.ReadN? {
        TouchAllStoresNothing(s, Picked(s.files, r.order, r.n, r.busy));
      } else if r.Open? && r.path == path {
        CreateSucceedsIff(s, r.client, path, r.create, r.lock);
      } else {
        hide EncodeWord, SendData, Inv;
      }
    }
  }

  // ------------------------------------------------------------------------------- every run

  // The accesses to a file, since it was last created, after one more request and after a run of them;
  // c for what was before.
  ghost function CountAfter(s: Storage, r: Request, path: Path, c: nat): nat {
    if path in s.files && path in Step(s, r).store.files then c + AccessesIn(s, r, path) else 0
  }

  ghost function SinceCreation(s: Storage, requests: seq<Request>, path: Path, c: nat): nat
    decreases |requests|
  {
    if requests == [] then c
    else SinceCreation(Step(s, requests[0]).store, requests[1..], path, CountAfter(s, requests[0], path, c))
  }

  lemma StepCountsOn(s: Storage, r: Request, path: Path, c: nat)
    requires Inv(s) && Legal(s, r) && !Locks(r, path)
    requires path in s.files ==> s.files[path].info == c % UINT_MOD
    ensures path in Step(s, r).store.files ==> Step(s, r).store.files[path].info == CountAfter(s, r, path, c) % UINT_MOD
  {
    hide Inv, Legal, Step, AccessesIn, Locks;
    if path in Step(s, r).store.files {
      if path in s.files {
        StepCounts(s, r, path);
        CountOn(c, AccessesIn(s, r, path));
      } else {
        NewFilesAreUncounted(s, r, path);
      }
    }
  }

  lemma {:induction false} RunCounts(s: Storage, requests: seq<Request>, path: Path, c: nat)
    requires Inv(s) && LegalRun(s, requests) && forall r | r in requests :: !Locks(r, path)
    requires path in s.files ==> s.files[path].info == c % UINT_MOD
    ensures path in After(s, requests).files ==>
              After(s, requests).files[path].info == SinceCreation(s, requests, path, c) % UINT_MOD
    decreases |requests|
  {
    if requests != [] {
      var r, tail := requests[0], requests[1..];
      assert r in requests && forall x | x in tail :: x in requests;
      hide Inv, Legal, Step, CountAfter, Locks;
      StepKeepsInv(s, r);
      StepCountsOn(s, r, path, c);
      RunCounts(Step(s, r).store, tail, path, CountAfter(s, r, path, c));
    }
  }

  /** What data_info means: from an empty storage, after any run in which nobody opens the file with
      O_LOCK, it is the number of accesses to the file since it was created, modulo 2^32. */
  lemma InfoIsTheAccessCount(maxFiles: nat, maxBytes: nat, requests: seq<Request>, path: Path)
    requires maxFiles < SIZE_MOD && maxBytes < SIZE_MOD && LegalRun(InitStorage(maxFiles, maxBytes), requests)
    requires forall r | r in requests :: !Locks(r, path)
    ensures var s := InitStorage(maxFiles, maxBytes);
            path in After(s, requests).files ==>
              After(s, requests).files[path].info == SinceCreation(s, requests, path, 0) % 0x1_0000_0000
  {
    RunCounts(InitStorage(maxFiles, maxBytes), requests, path, 0);
  }

  // ------------------------------------------------------------------------------ the victims

  lemma {:induction false} EligibleKeepOrder(files: Files, client: nat, busy: set<Path>, plan: seq<Path>)
    requires InEvictionOrder(files, plan) && Distinct(plan)
    ensures InEvictionOrder(files, EligibleOnes(files, client, busy, plan))
  {
    if plan != [] {
      DistinctTail(plan);
      EligibleKeepOrder(files, client, busy, plan[1..]);
      EligibleDistinct(files, client, busy, plan[1..]);
      var tail := EligibleOnes(files, client, busy, plan[1..]);
      forall i | 0 <= i < |tail| ensures exists j :: 0 < j < |plan| && plan[j] == tail[i] {
        assert tail[i] in plan[1..];
        var j :| 0 <= j < |plan[1..]| && plan[1..][j] == tail[i];
        assert plan[j + 1] == tail[i];
      }
    }
  }

  // Every file that is taken comes before every one that could have been taken instead.
  lemma MostAccessedGoFirst(files: Files, client: nat, busy: set<Path>, plan: seq<Path>, need: nat, v: Path, w: Path)
    requires Enumerates(files, plan) && InEvictionOrder(files, plan)
    requires v in Victims(files, client, busy, plan, need) && w !in Victims(files, client, busy, plan, need)
    requires Eligible(files, client, busy, w)
    ensures v in files
    ensures files[v].info > files[w].info || (files[v].info == files[w].info && |files[v].data| >= |files[w].data|)
  {
    var e, vs := EligibleOnes(files, client, busy, plan), Victims(files, client, busy, plan, need);
    VictimsAreShortestCover(files, client, busy, plan, need);
    EligibleKeepOrder(files, client, busy, plan);
    assert w in PathSet(plan);
    EligibleIsListed(files, client, busy, plan, w);
    var i :| 0 <= i < |vs| && vs[i] == v;
    var j :| 0 <= j < |e| && e[j] == w;
    assert forall k | 0 <= k < |vs| :: e[k] == vs[k] && vs[k] != w;
  }

  // The count of every file in a run without O_LOCK, when none comes near 2^31 and all are below it in size.
  ghost predicate Moderate(s: Storage, requests: seq<Request>) {
    forall p | p in After(s, requests).files ::
      SinceCreation(s, requests, p, 0) < 0x7fff_ffff && |After(s, requests).files[p].data| < 0x8000_0000
  }

  lemma CountIsInfo(maxFiles: nat, maxBytes: nat, requests: seq<Request>, p: Path)
    requires maxFiles < SIZE_MOD && maxBytes < SIZE_MOD && LegalRun(InitStorage(maxFiles, maxBytes), requests)
    requires forall r | r in requests :: !(r.Open? && r.lock)
    requires Moderate(InitStorage(maxFiles, maxBytes), requests) && p in After(InitStorage(maxFiles, maxBytes), requests).files
    ensures var s := InitStorage(maxFiles, maxBytes);
            After(s, requests).files[p].info == SinceCreation(s, requests, p, 0) < 0x7fff_ffff
  {
    hide LegalRun, After, SinceCreation;
    InfoIsTheAccessCount(maxFiles, maxBytes, requests, p);
  }

  lemma TouchStaysInRange(s: Storage, path: Path)
    requires forall p | p in s.files :: s.files[p].info < 0x7fff_ffff && |s.files[p].data| < 0x8000_0000
    ensures InRange(Touch(s, path).files)
  {
  }

  // A request that makes the server evict, seen on the storage before it.
  lemma GoneBeforeStaying(s: Storage, r: Request, v: Path, w: Path)
    requires forall p | p in s.files :: s.files[p].info < 0x7fff_ffff && |s.files[p].data| < 0x8000_0000
    requires r.Write? && Holds(s, r.client, r.path) && IsOrder(Touch(s, r.path).files, r.plan)
    requires v in GoneIn(s, r) && w !in GoneIn(s, r)
    requires w in s.files && w !in r.busy && w != r.path && (s.files[w].client == FREE || s.files[w].client == r.client)
    ensures v in s.files
    ensures s.files[v].info > s.files[w].info
            || (s.files[v].info == s.files[w].info && |s.files[v].data| >= |s.files[w].data|)
  {
    hide InRange, Enumerates, InEvictionOrder, Victims, Bytes, UInt;
    var t := Touch(s, r.path);
    TouchStaysInRange(s, r.path);
    MostAccessedGoFirst(t.files, r.client, r.busy + {r.path}, r.plan, |r.data| - BytesAvailable(t), v, w);
  }

  /** The eviction takes the most accessed files. After any run without O_LOCK, in which counts and
      sizes stay below 2^31, let a write make the server evict, with the plan that the server makes.
      Of two files that it may take, of which one goes and the other stays, the one that goes was
      accessed more often, or as often and is no smaller. */
  lemma EvictsTheMostAccessed(maxFiles: nat, maxBytes: nat, requests: seq<Request>, r: Request, v: Path, w: Path)
    requires maxFiles < SIZE_MOD && maxBytes < SIZE_MOD && LegalRun(InitStorage(maxFiles, maxBytes), requests)
    requires (forall q | q in requests :: !(q.Open? && q.lock)) && Moderate(InitStorage(maxFiles, maxBytes), requests)
    requires r.Write? && Holds(After(InitStorage(maxFiles, maxBytes), requests), r.client, r.path)
    requires IsOrder(Touch(After(InitStorage(maxFiles, maxBytes), requests), r.path).files, r.plan)
    requires v in GoneIn(After(InitStorage(maxFiles, maxBytes), requests), r)
    requires w in After(InitStorage(maxFiles, maxBytes), requests).files && w !in r.busy && w != r.path
    requires var c := After(InitStorage(maxFiles, maxBytes), requests).files[w].client; c == FREE || c == r.client
    requires w !in GoneIn(After(InitStorage(maxFiles, maxBytes), requests), r)
    ensures var first, s := InitStorage(maxFiles, maxBytes), After(InitStorage(maxFiles, maxBytes), requests);
            var nv, nw := SinceCreation(first, requests, v, 0), SinceCreation(first, requests, w, 0);
            v in s.files && (nv > nw || (nv == nw && |s.files[v].data| >= |s.files[w].data|))
  {
    var s := After(InitStorage(maxFiles, maxBytes), requests);
    forall p | p in s.files
      ensures s.files[p].info == SinceCreation(InitStorage(maxFiles, maxBytes), requests, p, 0) < 0x7fff_ffff
      ensures |s.files[p].data| < 0x8000_0000
    {
      CountIsInfo(maxFiles, maxBytes, requests, p);
    }
    hide LegalRun, After, SinceCreation, GoneIn, IsOrder, Moderate, Touch;
    GoneBeforeStaying(s, r, v, w);
  }
}
