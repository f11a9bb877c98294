/** Eviction: the order fu_evict_compare puts the files in, and what the loop of server_evict takes. */
module Eviction {
  import opened Words
  import opened Paths
  import opened Store
  import opened Accounts

  // ------------------------------------------------------------------------- the comparison

  // The value of an integer expression converted to a 32-bit int.
  function Int32(x: int): int {
    var u := UInt(x);
    if u < 0x8000_0000 then u else u - UINT_MOD
  }

  // fu_evict_compare on the two fields it reads: data_info, an unsigned int, and data_len. The
  // difference of two sizes is exact in ssize_t; it is cut to an int on return. Negation of the
  // least int overflows, which leaves it unchanged on the usual machines.
  function EvictCompare(infoA: nat, lenA: nat, infoB: nat, lenB: nat): int {
    var compa := Int32(infoA - infoB);
    if compa == 0 then Int32(-(lenA - lenB)) else Int32(-compa)
  }

  // The intended order: more accesses first, larger files first among equals.
  function IntendedCompare(infoA: nat, lenA: nat, infoB: nat, lenB: nat): int {
    if infoA != infoB then infoB - infoA else lenB - lenA
  }

  predicate SameSign(x: int, y: int) {
    (x < 0 <==> y < 0) && (x > 0 <==> y > 0)
  }

  lemma CompareAsIntended(infoA: nat, lenA: nat, infoB: nat, lenB: nat)
    requires infoA < 0x8000_0000 && infoB < 0x8000_0000 && lenA < 0x8000_0000 && lenB < 0x8000_0000
    ensures EvictCompare(infoA, lenA, infoB, lenB) == IntendedCompare(infoA, lenA, infoB, lenB)
  {
  }

  /** The comparison orders all pairs of files with at most `maxInfo` accesses and `maxLen` bytes
      as intended exactly when both bounds are below 2^31. */
  lemma CompareIsSoundIff(maxInfo: nat, maxLen: nat)
    ensures (forall infoA: nat, lenA: nat, infoB: nat, lenB: nat |
               infoA <= maxInfo && infoB <= maxInfo && lenA <= maxLen && lenB <= maxLen ::
               SameSign(EvictCompare(infoA, lenA, infoB, lenB), IntendedCompare(infoA, lenA, infoB, lenB)))
            <==> maxInfo < 0x8000_0000 && maxLen < 0x8000_0000
  {
    if maxInfo < 0x8000_0000 && maxLen < 0x8000_0000 {
      forall infoA: nat, lenA: nat, infoB: nat, lenB: nat |
        infoA <= maxInfo && infoB <= maxInfo && lenA <= maxLen && lenB <= maxLen
        ensures SameSign(EvictCompare(infoA, lenA, infoB, lenB), IntendedCompare(infoA, lenA, infoB, lenB))
      {
        CompareAsIntended(infoA, lenA, infoB, lenB);
      }
    } else if maxInfo >= 0x8000_0000 {
      assert !SameSign(EvictCompare(0, 0, 0x8000_0000, 0), IntendedCompare(0, 0, 0x8000_0000, 0));
    } else {
      assert !SameSign(EvictCompare(0, 0, 0, 0x8000_0000), IntendedCompare(0, 0, 0, 0x8000_0000));
    }
  }

  // Beyond that the comparison is not even consistent: three files that beat each other in a circle.
  lemma CompareCanCycle()
    ensures EvictCompare(0, 0, 0x6000_0000, 0) > 0
    ensures EvictCompare(0x6000_0000, 0, 0xC000_0000, 0) > 0
    ensures EvictCompare(0xC000_0000, 0, 0, 0) > 0
  {
  }

  function PlanCompare(files: Files, p: Path, q: Path): int
    requires p in files && q in files
  {
    EvictCompare(files[p].info, |files[p].data|, files[q].info, |files[q].data|)
  }

  // In the order the eviction is meant to go.
  ghost predicate InEvictionOrder(files: Files, plan: seq<Path>) {
    forall i, j | 0 <= i < j < |plan| && plan[i] in files && plan[j] in files ::
      var a, b := files[plan[i]], files[plan[j]];
      a.info > b.info || (a.info == b.info && |a.data| >= |b.data|)
  }

  lemma SortedPlanIsInOrder(files: Files, plan: seq<Path>)
    requires forall p | p in files :: files[p].info < 0x8000_0000 && |files[p].data| < 0x8000_0000
    requires forall p | p in plan :: p in files
    requires forall i, j | 0 <= i < j < |plan| :: PlanCompare(files, plan[i], plan[j]) <= 0
    ensures InEvictionOrder(files, plan)
  {
    forall i, j | 0 <= i < j < |plan|
      ensures var a, b := files[plan[i]], files[plan[j]];
              a.info > b.info || (a.info == b.info && |a.data| >= |b.data|)
    {
      var a, b := files[plan[i]], files[plan[j]];
      CompareAsIntended(a.info, |a.data|, b.info, |b.data|);
    }
  }

  // ----------------------------------------------------------------------------- the victims

  // The files of the plan that may be taken, in order.
  function EligibleOnes(files: Files, client: nat, busy: set<Path>, plan: seq<Path>): (r: seq<Path>)
    ensures forall p | p in r :: Eligible(files, client, busy, p)
  {
    if plan == [] then []
    else (if Eligible(files, client, busy, plan[0]) then [plan[0]] else []) + EligibleOnes(files, client, busy, plan[1..])
  }

  // v is the shortest run at the start of e that covers the need, or all of e if nothing does.
  ghost predicate ShortestCover(files: Files, v: seq<Path>, e: seq<Path>, need: nat) {
    && v <= e
    && (v == e || Sizes(files, v) >= need)
    && (v != [] ==> Sizes(files, v[..|v| - 1]) < need)
  }

  lemma ShortestCoverStep(files: Files, p: Path, v: seq<Path>, e: seq<Path>, need: nat)
    requires need > 0 && ShortestCover(files, v, e, Rest(need, Size(files, p)))
    ensures ShortestCover(files, [p] + v, [p] + e, need)
  {
    var w := [p] + v;
    assert w[1..] == v && ([p] + e)[1..] == e;
    if v != [] {
      assert w[..|w| - 1] == [p] + v[..|v| - 1];
      assert ([p] + v[..|v| - 1])[1..] == v[..|v| - 1];
    } else {
      assert w[..|w| - 1] == [];
    }
  }

  /** The loop of server_evict takes exactly the shortest run, in eviction order, of files it may
      take whose sizes cover the request, or all of them if they cannot; and it ends with nothing
      left to free exactly when together they suffice. */
  lemma {:induction false} VictimsAreShortestCover(files: Files, client: nat, busy: set<Path>, plan: seq<Path>, need: nat)
    ensures ShortestCover(files, Victims(files, client, busy, plan, need), EligibleOnes(files, client, busy, plan), need)
    ensures StillNeeded(files, client, busy, plan, need) == 0 <==> Sizes(files, EligibleOnes(files, client, busy, plan)) >= need
  {
    if need == 0 || plan == [] {
    } else if !Eligible(files, client, busy, plan[0]) {
      VictimsAreShortestCover(files, client, busy, plan[1..], need);
      assert EligibleOnes(files, client, busy, plan) == EligibleOnes(files, client, busy, plan[1..]);
    } else {
      var p, tail := plan[0], plan[1..];
      var rest := Rest(need, Size(files, p));
      VictimsAreShortestCover(files, client, busy, tail, rest);
      var v, e := Victims(files, client, busy, tail, rest), EligibleOnes(files, client, busy, tail);
      ShortestCoverStep(files, p, v, e, need);
      assert ([p] + e)[1..] == e;
    }
  }

  lemma {:induction false} VictimsDistinct(files: Files, client: nat, busy: set<Path>, plan: seq<Path>, need: nat)
    requires Distinct(plan)
    ensures Distinct(Victims(files, client, busy, plan, need))
    ensures forall p | p in Victims(files, client, busy, plan, need) :: p in plan
  {
    if need == 0 || plan == [] {
    } else {
      DistinctTail(plan);
      var rest := if Eligible(files, client, busy, plan[0]) then Rest(need, Size(files, plan[0])) else need;
      VictimsDistinct(files, client, busy, plan[1..], rest);
    }
  }

  lemma {:induction false} SizesWithinBytes(files: Files, paths: seq<Path>)
    requires Distinct(paths) && PathSet(paths) <= files.Keys
    ensures Sizes(files, paths) <= Bytes(files)
    decreases |paths|
  {
    if paths == [] {
    } else {
      DistinctTail(paths);
      var p := paths[0];
      assert p in PathSet(paths);
      BytesWithout(files, p);
      SizesWithinBytes(files - {p}, paths[1..]);
      SizesUnaffected(files, files - {p}, paths[1..]);
    }
  }

  lemma {:induction false} EligibleDistinct(files: Files, client: nat, busy: set<Path>, plan: seq<Path>)
    requires Distinct(plan)
    ensures Distinct(EligibleOnes(files, client, busy, plan))
    ensures forall p | p in EligibleOnes(files, client, busy, plan) :: p in plan
  {
    if plan == [] {
    } else {
      DistinctTail(plan);
      EligibleDistinct(files, client, busy, plan[1..]);
    }
  }

  // What server_evict removes: nothing when not even all the stored bytes together would do.
  ghost function Evicted(files: Files, client: nat, busy: set<Path>, plan: seq<Path>, need: nat): seq<Path> {
    if Bytes(files) < need then [] else Victims(files, client, busy, plan, need)
  }

  lemma EvictedFacts(files: Files, client: nat, busy: set<Path>, plan: seq<Path>, need: nat)
    requires Enumerates(files, plan)
    ensures var v := Evicted(files, client, busy, plan, need);
            Distinct(v) && PathSet(v) <= files.Keys && forall p | p in v :: Eligible(files, client, busy, p)
    ensures Sizes(files, EligibleOnes(files, client, busy, plan)) <= Bytes(files)
  {
    VictimsDistinct(files, client, busy, plan, need);
    EligibleDistinct(files, client, busy, plan);
    SizesWithinBytes(files, EligibleOnes(files, client, busy, plan));
  }

  /** An eviction succeeds exactly when the files it may take are large enough together. Then it
      takes the shortest run of them, in the order of the plan, that covers the request. */
  lemma EvictSucceedsIff(s: Storage, client: nat, busy: set<Path>, plan: seq<Path>, need: nat, sendBack: bool)
    requires Enumerates(s.files, plan) && need > 0
    ensures var eligible, v := EligibleOnes(s.files, client, busy, plan), Evicted(s.files, client, busy, plan, need);
            && (Evict(s, client, busy, plan, need, sendBack).ok <==> Sizes(s.files, eligible) >= need)
            && (Bytes(s.files) >= need ==> ShortestCover(s.files, v, eligible, need))
            && (Evict(s, client, busy, plan, need, sendBack).ok ==> Sizes(s.files, v) >= need)
  {
    EvictedFacts(s.files, client, busy, plan, need);
    VictimsAreShortestCover(s.files, client, busy, plan, need);
  }

  /** Conservation: the files that an eviction leaves are untouched, and the counters fall by
      exactly the number and the bytes of what is gone. */
  lemma EvictConserves(s: Storage, client: nat, busy: set<Path>, plan: seq<Path>, need: nat, sendBack: bool)
    requires Inv(s) && Enumerates(s.files, plan)
    ensures var e, v := Evict(s, client, busy, plan, need, sendBack), Evicted(s.files, client, busy, plan, need);
            && e.store.files == s.files - PathSet(v)
            && e.store.currBytes == s.currBytes - Sizes(s.files, v)
            && e.store.currFiles == s.currFiles - |v|
            && e.store.maxBytes == s.maxBytes && Inv(e.store)
  {
    var v := Evicted(s.files, client, busy, plan, need);
    EvictedFacts(s.files, client, busy, plan, need);
    RemoveAllFiles(s, v);
    RemoveAllCounts(s, v);
    RemoveAllKeepsInv(s, v);
  }

  // -------------------------------------------------------------------------- write and append

  // The files that a write by the holder of `path` makes the server evict.
  ghost function Casualties(s: Storage, client: nat, path: Path, data: seq<Byte>, busy: set<Path>, plan: seq<Path>): (v: seq<Path>)
    ensures forall p | p in v :: Eligible(s.files, client, busy + {path}, p)
  {
    if BytesAvailable(s) >= |data| then []
    else Evicted(s.files, client, busy + {path}, plan, |data| - BytesAvailable(s))
  }

  // Whether a write by the holder of a file finds the space it needs, directly or by eviction.
  ghost predicate RoomCanBeMade(s: Storage, client: nat, path: Path, busy: set<Path>, plan: seq<Path>, len: nat) {
    len <= BytesAvailable(s) ||
    Sizes(s.files, EligibleOnes(s.files, client, busy + {path}, plan)) >= len - BytesAvailable(s)
  }

  function NewContents(append: bool, was: seq<Byte>, data: seq<Byte>): seq<Byte> {
    if append then was + data else data
  }

  // A write that goes through is one access more, after the lookup.
  ghost predicate WriteCounted(s: Storage, o: Outcome, path: Path) {
    path in s.files && path in o.store.files &&
    o.store.files[path].info == if o.ok then (s.files[path].info + 1) % UINT_MOD else s.files[path].info
  }

  lemma FinishWriteSucceeds(s: Storage, path: Path, append: bool, data: seq<Byte>, sent: seq<Byte>)
    requires Inv(s) && path in s.files && |data| <= BytesAvailable(s)
    ensures var o := FinishWrite(s, path, append, data, sent);
            && Inv(o.store) && o.store.files.Keys == s.files.Keys
            && (o.ok <==> data != [])
            && (forall q | q in s.files && q != path :: o.store.files[q] == s.files[q])
            && o.store.files[path].client == s.files[path].client
            && o.store.files[path].data == (if data != [] then NewContents(append, s.files[path].data, data) else s.files[path].data)
            && WriteCounted(s, o, path)
  {
    var f := s.files[path];
    var i := if append then |f.data| else 0;
    SizeWithin(s.files, path);
    WriteKeepsInv(s, path, i, data);
    if data != [] {
      assert f.data[..|f.data|] == f.data && f.data[..0] == [];
      assert f.data[..i] + data == NewContents(append, f.data, data);
    }
  }

  // What a handler relies on after an eviction: the space it asked for is there, the busy files
  // are stored, and every stored file is as it was.
  lemma EvictMakesRoom(s: Storage, client: nat, busy: set<Path>, plan: seq<Path>, need: nat, sendBack: bool)
    requires Inv(s) && Enumerates(s.files, plan) && need > 0
    ensures var e := Evict(s, client, busy, plan, need, sendBack);
            && Inv(e.store)
            && (e.ok <==> Sizes(s.files, EligibleOnes(s.files, client, busy, plan)) >= need)
            && (e.ok ==> BytesAvailable(e.store) >= BytesAvailable(s) + need)
            && e.store.files.Keys == s.files.Keys - PathSet(Evicted(s.files, client, busy, plan, need))
            && (forall p | p in e.store.files :: e.store.files[p] == s.files[p])
            && (forall p | p in s.files && !Eligible(s.files, client, busy, p) :: p in e.store.files)
  {
    EvictedFacts(s.files, client, busy, plan, need);
    EvictSucceedsIff(s, client, busy, plan, need, sendBack);
    EvictConserves(s, client, busy, plan, need, sendBack);
  }

  // What a write of `data` has done to the stored files: the target, the files that are gone, and all others.
  ghost predicate WriteEffect(s: Storage, o: Outcome, path: Path, append: bool, data: seq<Byte>, gone: seq<Path>)
    requires path in s.files
  {
    && path in o.store.files && o.store.files[path].client == s.files[path].client
    && o.store.files[path].data == (if o.ok then NewContents(append, s.files[path].data, data) else s.files[path].data)
    && o.store.files.Keys == s.files.Keys - PathSet(gone)
    && (forall q | q in o.store.files && q != path :: o.store.files[q] == s.files[q])
    && (forall q | q in s.files && s.files[q].client != FREE && s.files[q].client != s.files[path].client :: q in o.store.files)
  }

  // The space is there.
  lemma DirectWriteIsExact(s: Storage, path: Path, append: bool, data: seq<Byte>)
    requires Inv(s) && path in s.files && |data| <= BytesAvailable(s)
    ensures var o := FinishWrite(s, path, append, data, EncodeWord(SAPI_SUCCESS));
            Inv(o.store) && WriteEffect(s, o, path, append, data, []) && WriteCounted(s, o, path) && (o.ok <==> data != [])
  {
    hide FinishWrite, Inv, EncodeWord;
    FinishWriteSucceeds(s, path, append, data, EncodeWord(SAPI_SUCCESS));
  }

  // The space has to be made.
  lemma EvictingWriteIsExact(s: Storage, client: nat, path: Path, append: bool, data: seq<Byte>,
                             busy: set<Path>, plan: seq<Path>, sendBack: bool)
    requires Inv(s) && path in s.files && s.files[path].client == client && Enumerates(s.files, plan)
    requires BytesAvailable(s) < |data|
    ensures var o := WriteHeld(s, client, path, append, data, busy, plan, sendBack);
            && Inv(o.store)
            && WriteEffect(s, o, path, append, data, Casualties(s, client, path, data, busy, plan))
            && WriteCounted(s, o, path)
            && (o.ok <==> data != [] && RoomCanBeMade(s, client, path, busy, plan, |data|))
  {
    hide Evict, FinishWrite, Inv, Enumerates, Evicted, EligibleOnes, Sizes, EncodeWord, Bytes;
    var need := |data| - BytesAvailable(s);
    var e := Evict(s, client, busy + {path}, plan, need, sendBack);
    EvictMakesRoom(s, client, busy + {path}, plan, need, sendBack);
    if e.ok {
      FinishWriteSucceeds(e.store, path, append, data, e.sent);
    }
  }

  lemma WriteHeldIsExact(s: Storage, client: nat, path: Path, append: bool, data: seq<Byte>,
                         busy: set<Path>, plan: seq<Path>, sendBack: bool)
    requires Inv(s) && path in s.files && s.files[path].client == client && Enumerates(s.files, plan)
    ensures var o := WriteHeld(s, client, path, append, data, busy, plan, sendBack);
            && Inv(o.store)
            && WriteEffect(s, o, path, append, data, Casualties(s, client, path, data, busy, plan))
            && WriteCounted(s, o, path)
            && (o.ok <==> data != [] && RoomCanBeMade(s, client, path, busy, plan, |data|))
  {
    hide Evict, FinishWrite, Inv, Enumerates, Evicted, EligibleOnes, Sizes, EncodeWord, Bytes, WriteEffect, WriteCounted;
    if BytesAvailable(s) < |data| {
      EvictingWriteIsExact(s, client, path, append, data, busy, plan, sendBack);
    } else {
      DirectWriteIsExact(s, path, append, data);
    }
  }

  lemma HeldSucceedsIff(s: Storage, client: nat, path: Path, append: bool, data: seq<Byte>,
                        busy: set<Path>, plan: seq<Path>, sendBack: bool)
    requires Inv(s) && path in s.files && s.files[path].client == client && Enumerates(s.files, plan)
    ensures WriteHeld(s, client, path, append, data, busy, plan, sendBack).ok <==>
            data != [] && RoomCanBeMade(s, client, path, busy, plan, |data|)
  {
    hide WriteHeld, RoomCanBeMade, WriteEffect, Casualties, Inv, Enumerates;
    WriteHeldIsExact(s, client, path, append, data, busy, plan, sendBack);
  }

  // ------------------------------------------------------------------------- what has to stay

  // The files that no write to `path` by this client can displace: the target itself, the files whose
  // mutex is taken, and the files that other clients hold.
  ghost function Kept(files: Files, client: nat, path: Path, busy: set<Path>): Files {
    map p | p in files && (p == path || p in busy || (files[p].client != FREE && files[p].client != client)) :: files[p]
  }

  lemma {:induction false} BytesWithoutAll(files: Files, paths: seq<Path>)
    requires Distinct(paths) && PathSet(paths) <= files.Keys
    ensures Bytes(files - PathSet(paths)) == Bytes(files) - Sizes(files, paths)
    decreases |paths|
  {
    if paths == [] {
      assert files - PathSet(paths) == files;
    } else {
      DistinctTail(paths);
      var p := paths[0];
      assert p in PathSet(paths);
      BytesWithout(files, p);
      BytesWithoutAll(files - {p}, paths[1..]);
      SizesUnaffected(files, files - {p}, paths[1..]);
      assert files - {p} - PathSet(paths[1..]) == files - PathSet(paths);
    }
  }

  lemma {:induction false} EligibleIsListed(files: Files, client: nat, busy: set<Path>, plan: seq<Path>, p: Path)
    requires p in plan && Eligible(files, client, busy, p)
    ensures p in EligibleOnes(files, client, busy, plan)
  {
    if p != plan[0] {
      assert p in plan[1..];
      EligibleIsListed(files, client, busy, plan[1..], p);
    }
  }

  lemma KeptAreTheOthers(files: Files, client: nat, path: Path, busy: set<Path>, plan: seq<Path>)
    requires Enumerates(files, plan)
    ensures var e := EligibleOnes(files, client, busy + {path}, plan);
            Distinct(e) && PathSet(e) <= files.Keys && Kept(files, client, path, busy) == files - PathSet(e)
  {
    EligibleDistinct(files, client, busy + {path}, plan);
    forall p | p in files && Eligible(files, client, busy + {path}, p)
      ensures p in EligibleOnes(files, client, busy + {path}, plan)
    {
      assert p in PathSet(plan);
      EligibleIsListed(files, client, busy + {path}, plan, p);
    }
  }

  // There is room for the data exactly when the files that have to stay leave it.
  lemma RoomIffKeptLeaveIt(s: Storage, client: nat, path: Path, busy: set<Path>, plan: seq<Path>, len: nat)
    requires Inv(s) && Enumerates(s.files, plan)
    ensures RoomCanBeMade(s, client, path, busy, plan, len) <==> Bytes(Kept(s.files, client, path, busy)) + len <= s.maxBytes
  {
    var e := EligibleOnes(s.files, client, busy + {path}, plan);
    KeptAreTheOthers(s.files, client, path, busy, plan);
    BytesWithoutAll(s.files, e);
  }

  lemma KeptTouched(s: Storage, client: nat, path: Path, busy: set<Path>)
    ensures Bytes(Kept(Touch(s, path).files, client, path, busy)) == Bytes(Kept(s.files, client, path, busy))
  {
    var kept := Kept(s.files, client, path, busy);
    if path in s.files {
      assert Kept(Touch(s, path).files, client, path, busy) == kept[path := Touched(s.files[path])];
      BytesUpdate(kept, path, Touched(s.files[path]));
    }
  }

  /** Write and append, for the client that holds the file: the request succeeds exactly when there
      is something to write and the files that have to stay leave room for it, in whatever order the
      others are evicted. In particular, once the space check is passed the capacity test of
      fu_writefile cannot fail. */
  lemma WriteSucceedsIff(s: Storage, client: nat, path: Path, append: bool, data: seq<Byte>,
                         busy: set<Path>, plan: seq<Path>, sendBack: bool)
    requires Inv(s) && path in s.files && s.files[path].client == client && Enumerates(s.files, plan)
    ensures DoWrite(s, client, path, append, data, busy, plan, sendBack).ok <==>
            data != [] && Bytes(Kept(s.files, client, path, busy)) + |data| <= s.maxBytes
  {
    var t := Touch(s, path);
    TouchKeepsInv(s, path);
    HeldSucceedsIff(t, client, path, append, data, busy, plan, sendBack);
    RoomIffKeptLeaveIt(t, client, path, busy, plan, |data|);
    KeptTouched(s, client, path, busy);
  }

  /** After a successful write or append the file holds exactly the new contents, and after a failed
      one exactly the old; it is still stored and still the client's. Exactly the casualties of the
      eviction are gone, none of which another client holds, every other file is unchanged, and the
      accounts are exact. */
  lemma WriteChangesOnlyItsFile(s: Storage, client: nat, path: Path, append: bool, data: seq<Byte>,
                                busy: set<Path>, plan: seq<Path>, sendBack: bool)
    requires Inv(s) && path in s.files && s.files[path].client == client && Enumerates(s.files, plan)
    ensures var o := DoWrite(s, client, path, append, data, busy, plan, sendBack);
            Inv(o.store) && WriteEffect(s, o, path, append, data, Casualties(Touch(s, path), client, path, data, busy, plan))
  {
    TouchKeepsInv(s, path);
    WriteHeldIsExact(Touch(s, path), client, path, append, data, busy, plan, sendBack);
  }
}
