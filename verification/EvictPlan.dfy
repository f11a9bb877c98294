/** The plan of an eviction: the array that fu_evict_files fills from the table, sorts, and checks
    against the request. */
module EvictPlans {
  import opened Words
  import opened Paths
  import opened Chains
  import opened TableMap
  import opened Arrays
  import opened Store
  import opened Accounts
  import opened Eviction
  import opened FileStorages

  // A slot of the plan, with the fields of its file that the sorting and the loops read; none
  // of them changes while the plan is in use.
  datatype PlanEntry = PlanEntry(file: FileData?, path: Path, info: nat, size: nat)

  // fu_evict_compare
  function EntryCompare(a: PlanEntry, b: PlanEntry): int {
    EvictCompare(a.info, a.size, b.info, b.size)
  }

  ghost function EntryOf(f: FileData): PlanEntry
    reads f
  {
    PlanEntry(f, f.path, f.info, |f.data|)
  }

  function PlanPaths(entries: seq<PlanEntry>): (r: seq<Path>)
    ensures |r| == |entries| && forall i | 0 <= i < |r| :: r[i] == entries[i].path
  {
    seq(|entries|, i requires 0 <= i < |entries| => entries[i].path)
  }

  // Every entry is a stored file as it is now.
  ghost predicate Current(h: map<Path, FileData>, entries: seq<PlanEntry>)
    reads h.Values
  {
    forall e | e in entries :: e.path in h && e == EntryOf(h[e.path])
  }

  // A plan lists every stored file once; in eviction order, if the comparison can tell it.
  ghost predicate IsOrder(files: Files, order: seq<Path>) {
    Enumerates(files, order) && (InRange(files) ==> InEvictionOrder(files, order))
  }

  ghost predicate InRange(files: Files) {
    forall p | p in files :: files[p].info < 0x8000_0000 && |files[p].data| < 0x8000_0000
  }

  // ------------------------------------------------------------------------- about the plan

  lemma {:induction false} DistinctCount(paths: seq<Path>)
    requires Distinct(paths)
    ensures |PathSet(paths)| == |paths|
  {
    if paths == [] {
    } else {
      DistinctTail(paths);
      DistinctCount(paths[1..]);
    }
  }

  lemma {:induction false} EnumeratedBytes(files: Files, order: seq<Path>)
    requires Enumerates(files, order)
    ensures Sizes(files, order) == Bytes(files)
    decreases |order|
  {
    if order == [] {
      assert files == map[];
    } else {
      DistinctTail(order);
      var p := order[0];
      assert p in PathSet(order);
      BytesWithout(files, p);
      assert (files - {p}).Keys == PathSet(order[1..]);
      EnumeratedBytes(files - {p}, order[1..]);
      SizesUnaffected(files, files - {p}, order[1..]);
    }
  }

  lemma {:induction false} EntryOnce(entries: seq<PlanEntry>, e: PlanEntry)
    requires Distinct(PlanPaths(entries))
    ensures multiset(entries)[e] <= 1
  {
    if entries == [] {
    } else {
      var paths, tail := PlanPaths(entries), entries[1..];
      assert entries == [entries[0]] + tail;
      forall i, j | 0 <= i < j < |tail| ensures tail[i].path != tail[j].path {
        assert paths[i + 1] != paths[j + 1];
      }
      EntryOnce(tail, e);
      forall k | 0 <= k < |tail| ensures tail[k] != entries[0] {
        assert paths[0] != paths[k + 1];
      }
      assert entries[0] !in multiset(tail);
    }
  }

  lemma TwiceInMultiset<T>(s: seq<T>, i: nat, j: nat)
    requires i < j < |s|
    ensures s[i] == s[j] ==> multiset(s)[s[i]] >= 2
  {
    if s[i] == s[j] {
      assert s == s[..j] + s[j..];
      assert s[..j][i] == s[i] && s[j..][0] == s[i];
      assert s[i] in s[..j] && s[i] in s[j..];
    }
  }

  lemma InBoth<T>(a: seq<T>, b: seq<T>, e: T)
    requires multiset(a) == multiset(b) && e in a
    ensures e in b
  {
    assert e in multiset(b);
  }

  lemma PathsWithin(a: seq<PlanEntry>, b: seq<PlanEntry>)
    requires multiset(a) == multiset(b)
    ensures PathSet(PlanPaths(a)) <= PathSet(PlanPaths(b))
  {
    forall p | p in PathSet(PlanPaths(a)) ensures p in PathSet(PlanPaths(b)) {
      var i :| 0 <= i < |a| && a[i].path == p;
      InBoth(a, b, a[i]);
      var j :| 0 <= j < |b| && b[j] == a[i];
      assert PlanPaths(b)[j] == p;
    }
  }

  lemma StillDistinct(was: seq<PlanEntry>, now: seq<PlanEntry>)
    requires multiset(was) == multiset(now) && Distinct(PlanPaths(was))
    requires forall i, j | 0 <= i < j < |now| && now[i].path == now[j].path :: now[i] == now[j]
    ensures Distinct(PlanPaths(now))
  {
    forall i, j | 0 <= i < j < |now| ensures now[i].path != now[j].path {
      TwiceInMultiset(now, i, j);
      EntryOnce(was, now[i]);
    }
  }

  // Sorting shuffles the plan and nothing else.
  lemma ShuffleKeepsPlan(s: FileStorage, was: seq<PlanEntry>, now: seq<PlanEntry>)
    requires Current(s.handles, was) && Enumerates(s.Abs().files, PlanPaths(was)) && multiset(was) == multiset(now)
    ensures Current(s.handles, now) && Enumerates(s.Abs().files, PlanPaths(now))
  {
    forall e | e in now ensures e in was {
      InBoth(now, was, e);
    }
    forall i, j | 0 <= i < j < |now| && now[i].path == now[j].path ensures now[i] == now[j] {
      assert now[i] in now && now[j] in now;
    }
    hide FilesOf, PathSet, Distinct, PlanPaths;
    PathsWithin(was, now);
    PathsWithin(now, was);
    StillDistinct(was, now);
  }

  // In range, the comparison is the intended order, so the sort puts the plan in order.
  lemma InRangeIsPreorder(entries: seq<PlanEntry>)
    requires forall e | e in entries :: e.info < 0x8000_0000 && e.size < 0x8000_0000
    ensures TotalPreorder(EntryCompare, Elems(entries))
  {
    forall x, y | x in Elems(entries) && y in Elems(entries)
      ensures EntryCompare(x, y) == IntendedCompare(x.info, x.size, y.info, y.size)
    {
      CompareAsIntended(x.info, x.size, y.info, y.size);
    }
  }

  lemma SortedIsInOrder(s: FileStorage, entries: seq<PlanEntry>)
    requires Current(s.handles, entries) && InRange(s.Abs().files) && SortedBy(EntryCompare, entries)
    ensures InEvictionOrder(s.Abs().files, PlanPaths(entries))
  {
    var files, plan := s.Abs().files, PlanPaths(entries);
    forall i | 0 <= i < |plan| ensures plan[i] in files && files[plan[i]] == FileOf(s.handles[entries[i].path]) {
      assert entries[i] in entries;
    }
    forall i, j | 0 <= i < j < |plan| ensures PlanCompare(files, plan[i], plan[j]) <= 0 {
      assert entries[i] in entries && entries[j] in entries;
      assert EntryCompare(entries[i], entries[j]) <= 0;
    }
    SortedPlanIsInOrder(files, plan);
  }

  // ---------------------------------------------------------------------- making the plan

  // What is left of the need when files of these sizes are gone.
  function Left(entries: seq<PlanEntry>, need: nat): nat {
    if need == 0 || entries == [] then need else Left(entries[1..], Rest(need, entries[0].size))
  }

  lemma {:induction false} LeftIsExact(files: Files, entries: seq<PlanEntry>, need: nat)
    requires forall e | e in entries :: e.size == Size(files, e.path)
    ensures Left(entries, need) == 0 <==> Sizes(files, PlanPaths(entries)) >= need
    decreases |entries|
  {
    if need == 0 || entries == [] {
    } else {
      assert entries[0] in entries;
      assert PlanPaths(entries)[1..] == PlanPaths(entries[1..]);
      LeftIsExact(files, entries[1..], Rest(need, entries[0].size));
    }
  }

  lemma PlanCoversIff(s: FileStorage, entries: seq<PlanEntry>, need: nat)
    requires Current(s.handles, entries) && IsOrder(s.Abs().files, PlanPaths(entries))
    ensures Left(entries, need) == 0 <==> Bytes(s.Abs().files) >= need
  {
    EnumeratedBytes(s.Abs().files, PlanPaths(entries));
    LeftIsExact(s.Abs().files, entries, need);
  }

  // The traversal of the table, in terms of the stored files.
  lemma VisitsStored(s: FileStorage, items: seq<Item<Path, FileData>>)
    requires s.Valid() && items == Flatten(s.table.Contents())
    ensures DistinctKeys(items)
    ensures forall i | 0 <= i < |items| :: items[i].key in s.handles && s.handles[items[i].key] == items[i].data
    ensures forall p | p in s.handles :: exists i :: 0 <= i < |items| && items[i].key == p
  {
    hide Represents, Flatten, DistinctKeys;
    TraversalIsExact(PathTable.PathHash, PathTable.PathCompare, s.table.Contents(), s.handles, s.universe);
  }

  // The items of the table, as entries.
  lemma ItemsArePlan(s: FileStorage, items: seq<Item<Path, FileData>>, entries: seq<PlanEntry>)
    requires s.Valid() && items == Flatten(s.table.Contents())
    requires |entries| == |items| && forall i | 0 <= i < |items| :: entries[i] == EntryOf(items[i].data)
    ensures Current(s.handles, entries) && Enumerates(s.Abs().files, PlanPaths(entries))
  {
    hide FileStorage.TableHolds, Flatten;
    VisitsStored(s, items);
    var paths := PlanPaths(entries);
    forall i | 0 <= i < |items| ensures paths[i] == items[i].key {}
    forall p | p in s.handles ensures p in PathSet(paths) {
      var i :| 0 <= i < |items| && items[i].key == p;
      assert paths[i] == p;
    }
    assert PathSet(paths) == s.handles.Keys;
  }

  ghost function EntriesOf(items: seq<Item<Path, FileData>>): (r: seq<PlanEntry>)
    reads set i | 0 <= i < |items| :: items[i].data
    ensures |r| == |items| && forall i | 0 <= i < |items| :: r[i] == EntryOf(items[i].data)
  {
    seq(|items|, i requires 0 <= i < |items| reads if 0 <= i < |items| then {items[i].data} else {} => EntryOf(items[i].data))
  }

  // The array takes the items of the table, in the order of the traversal.
  method Collect(items: seq<Item<Path, FileData>>, len: nat) returns (arr: UArr<PlanEntry>)
    requires |items| <= len
    ensures fresh(arr) && fresh(arr.data) && arr.Valid() && arr.elementCount == |items| && arr.data.Length == len
    ensures arr.Elements() == EntriesOf(items)
  {
    arr := new UArr<PlanEntry>(len, EntryCompare);
    ghost var entries := EntriesOf(items);
    for i := 0 to |items|
      invariant fresh(arr) && fresh(arr.data) && arr.Valid() && arr.data.Length == len
      invariant arr.elementCount == i && arr.Elements() == entries[..i]
    {
      var f := items[i].data;
      var ok := arr.Insert(PlanEntry(f, f.path, f.info, |f.data|));
    }
    assert entries[..|items|] == entries;
  }

  lemma CountIsExact(s: FileStorage, items: seq<Item<Path, FileData>>)
    requires s.Valid() && Inv(s.Abs()) && items == Flatten(s.table.Contents())
    ensures |items| == s.currFiles
  {
    ItemsArePlan(s, items, EntriesOf(items));
    DistinctCount(PlanPaths(EntriesOf(items)));
  }

  // The traversal of the table fills an array of curr_files slots, to its last slot.
  method FillPlan(s: FileStorage) returns (arr: UArr<PlanEntry>)
    requires s.Valid() && Inv(s.Abs())
    ensures fresh(arr) && fresh(arr.data) && arr.Valid() && arr.elementCount == arr.data.Length == s.currFiles
    ensures Current(s.handles, arr.Elements()) && Enumerates(s.Abs().files, PlanPaths(arr.Elements()))
  {
    hide FilesOf, Current, Enumerates, Inv, Flatten, SortedBy;
    var items := s.table.Traverse();
    ItemsArePlan(s, items, EntriesOf(items));
    CountIsExact(s, items);
    hide FileStorage.Valid;
    arr := Collect(items, s.currFiles);
  }

  // The loop of fu_evict_files that counts the request down.
  method CountDown(arr: UArr<PlanEntry>, need: nat) returns (left: nat)
    requires arr.Valid()
    ensures left == Left(arr.Elements(), need)
  {
    ghost var entries := arr.Elements();
    left := need;
    var i := 0;
    while i < arr.elementCount && left != 0
      invariant 0 <= i <= arr.elementCount
      invariant Left(entries[i..], left) == Left(entries, need)
    {
      var len := arr.data[i].size;
      assert entries[i..][0].size == len && entries[i..][1..] == entries[i + 1..];
      left := if len > left then 0 else left - len;
      i := i + 1;
    }
  }

  // What qsort does to a plan: it is still one, and in order where the comparison can tell the order.
  lemma SortingOrders(s: FileStorage, was: seq<PlanEntry>, now: seq<PlanEntry>)
    requires Current(s.handles, was) && Enumerates(s.Abs().files, PlanPaths(was)) && multiset(was) == multiset(now)
    requires TotalPreorder(EntryCompare, Elems(was)) ==> SortedBy(EntryCompare, now)
    ensures Current(s.handles, now) && IsOrder(s.Abs().files, PlanPaths(now))
  {
    hide Enumerates, InEvictionOrder, SortedBy, TotalPreorder, FilesOf;
    ShuffleKeepsPlan(s, was, now);
    if InRange(s.Abs().files) {
      InRangeIsPreorder(was);
      SortedIsInOrder(s, now);
    }
  }

  method SortPlan(s: FileStorage, arr: UArr<PlanEntry>)
    requires s.Valid() && arr.Valid()
    requires Current(s.handles, arr.Elements()) && Enumerates(s.Abs().files, PlanPaths(arr.Elements()))
    modifies arr`isSorted, arr.data
    ensures arr.Valid() && Current(s.handles, arr.Elements()) && IsOrder(s.Abs().files, PlanPaths(arr.Elements()))
  {
    hide FileStorage.Valid, FilesOf, Current, Enumerates, IsOrder, SortedBy, TotalPreorder, Elems;
    ghost var filled := arr.Elements();
    Qsort(arr.data, arr.elementCount, EntryCompare);
    arr.isSorted := false;
    SortingOrders(s, filled, arr.Elements());
  }

  // fu_evict_files: null when all the files together are too small. `order` is the plan it makes.
  method EvictFiles(s: FileStorage, need: nat) returns (plan: UArr?<PlanEntry>, ghost order: seq<Path>)
    requires s.Valid() && Inv(s.Abs())
    ensures plan == null <==> Bytes(s.Abs().files) < need
    ensures plan != null ==> fresh(plan) && fresh(plan.data) && plan.Valid() && order == PlanPaths(plan.Elements())
    ensures plan != null ==> plan.elementCount == plan.data.Length == s.currFiles && Current(s.handles, plan.Elements())
    ensures IsOrder(s.Abs().files, order)
  {
    hide FileStorage.Valid, FilesOf, Inv, IsOrder, Bytes, SortedBy, Left, Current;
    plan := FillPlan(s);
    SortPlan(s, plan);
    order := PlanPaths(plan.Elements());
    PlanCoversIff(s, plan.Elements(), need);
    var left := CountDown(plan, need);
    if left > 0 {
      plan := null;
    }
  }
}
