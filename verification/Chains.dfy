/** The hash table of libs/LSO_LIB/hash_utils.c as a value: a sequence of chains, each a sequence
    of items. The operations are stated for an arbitrary comparison and hash; the second half
    proves what they amount to when the comparison is a total order within each bucket. */
module Chains {

  datatype Option<+T> = None | Some(value: T)

  datatype Item<K, V> = Item(key: K, data: V)

  type Chain<K, V> = seq<Item<K, V>>
  type Table<K, V> = seq<Chain<K, V>>

  // ------------------------------------------------------------------ operations on a chain

  // Where hu_navigate_list stops.
  function Position<K, V>(compare: (K, K) -> int, chain: Chain<K, V>, key: K): (i: nat)
    ensures i <= |chain|
    ensures forall j | 0 <= j < i :: compare(key, chain[j].key) > 0
    ensures i < |chain| ==> compare(key, chain[i].key) <= 0
  {
    if chain == [] || compare(key, chain[0].key) <= 0 then 0
    else 1 + Position(compare, chain[1..], key)
  }

  // The position is the only one of its kind.
  lemma PositionUnique<K, V>(compare: (K, K) -> int, chain: Chain<K, V>, key: K, i: nat)
    requires i <= |chain|
    requires forall j | 0 <= j < i :: compare(key, chain[j].key) > 0
    requires i < |chain| ==> compare(key, chain[i].key) <= 0
    ensures i == Position(compare, chain, key)
  {
  }

  predicate Matches<K, V>(compare: (K, K) -> int, chain: Chain<K, V>, key: K) {
    var i := Position(compare, chain, key);
    i < |chain| && compare(key, chain[i].key) == 0
  }

  function InsertItem<K, V>(compare: (K, K) -> int, chain: Chain<K, V>, key: K, data: V): Chain<K, V> {
    var i := Position(compare, chain, key);
    chain[..i] + [Item(key, data)] + chain[i..]
  }

  function RemoveItem<K, V>(compare: (K, K) -> int, chain: Chain<K, V>, key: K): Chain<K, V> {
    var i := Position(compare, chain, key);
    if Matches(compare, chain, key) then chain[..i] + chain[i + 1..] else chain
  }

  function GetItem<K, V>(compare: (K, K) -> int, chain: Chain<K, V>, key: K): Option<V> {
    if Matches(compare, chain, key) then Some(chain[Position(compare, chain, key)].data) else None
  }

  // ------------------------------------------------------------------ operations on a table

  function Bucket<K>(hash: K -> nat, n: nat, key: K): (b: nat)
    requires n > 0
    ensures b < n
  {
    hash(key) % n
  }

  function Insert<K, V>(hash: K -> nat, compare: (K, K) -> int, t: Table<K, V>, key: K, data: V): (r: Table<K, V>)
    requires |t| > 0
    ensures |r| == |t|
  {
    var b := Bucket(hash, |t|, key);
    t[b := InsertItem(compare, t[b], key, data)]
  }

  function Remove<K, V>(hash: K -> nat, compare: (K, K) -> int, t: Table<K, V>, key: K): (r: Table<K, V>)
    requires |t| > 0
    ensures |r| == |t|
  {
    var b := Bucket(hash, |t|, key);
    t[b := RemoveItem(compare, t[b], key)]
  }

  function Get<K, V>(hash: K -> nat, compare: (K, K) -> int, t: Table<K, V>, key: K): Option<V>
    requires |t| > 0
  {
    GetItem(compare, t[Bucket(hash, |t|, key)], key)
  }

  function EmptyTable<K, V>(n: nat): (t: Table<K, V>)
    ensures |t| == n && forall b | 0 <= b < n :: t[b] == []
  {
    seq(n, _ => [])
  }

  // ------------------------------------------------------------------------- total orders

  ghost predicate Ordered<K(!new)>(compare: (K, K) -> int, S: iset<K>) {
    && (forall a, b | a in S && b in S :: compare(a, b) == 0 <==> a == b)
    && (forall a, b | a in S && b in S :: compare(a, b) < 0 <==> compare(b, a) > 0)
    && (forall a, b, c {:trigger compare(a, b), compare(b, c), compare(a, c)} |
          a in S && b in S && c in S && compare(a, b) <= 0 && compare(b, c) <= 0 :: compare(a, c) <= 0)
  }

  // The keys of S that share a bucket.
  ghost function Share<K(!new)>(hash: K -> nat, n: nat, S: iset<K>, b: nat): iset<K>
    requires n > 0
  {
    iset k | k in S && Bucket(hash, n, k) == b
  }

  // Keys that meet in a bucket must be totally ordered; keys of different buckets are never compared.
  ghost predicate BucketsOrdered<K(!new)>(hash: K -> nat, compare: (K, K) -> int, n: nat, S: iset<K>)
    requires n > 0
  {
    forall b | 0 <= b < n :: Ordered(compare, Share(hash, n, S, b))
  }

  ghost predicate Sorted<K, V>(compare: (K, K) -> int, chain: Chain<K, V>) {
    forall i, j | 0 <= i < j < |chain| :: compare(chain[i].key, chain[j].key) <= 0
  }

  ghost predicate KeysIn<K(!new), V>(chain: Chain<K, V>, S: iset<K>) {
    forall i | 0 <= i < |chain| :: chain[i].key in S
  }

  // Every chain is sorted and every item sits in the bucket of its hash.
  ghost predicate WellFormed<K(!new), V>(hash: K -> nat, compare: (K, K) -> int, t: Table<K, V>, S: iset<K>)
    requires |t| > 0
  {
    forall b | 0 <= b < |t| :: Sorted(compare, t[b]) && KeysIn(t[b], Share(hash, |t|, S, b))
  }

  // -------------------------------------------------------------- a chain as a map to stacks

  // The values stored under a key, in chain order.
  function Stack<K(==), V>(chain: Chain<K, V>, key: K): seq<V> {
    if chain == [] then []
    else (if chain[0].key == key then [chain[0].data] else []) + Stack(chain[1..], key)
  }

  lemma {:induction false} StackConcat<K, V>(a: Chain<K, V>, b: Chain<K, V>, key: K)
    ensures Stack(a + b, key) == Stack(a, key) + Stack(b, key)
  {
    if a == [] {
      assert a + b == b;
    } else {
      var top := if a[0].key == key then [a[0].data] else [];
      assert (a + b)[0] == a[0] && (a + b)[1..] == a[1..] + b;
      StackConcat(a[1..], b, key);
      assert top + (Stack(a[1..], key) + Stack(b, key)) == (top + Stack(a[1..], key)) + Stack(b, key);
    }
  }

  lemma {:induction false} StackEmpty<K, V>(chain: Chain<K, V>, key: K)
    requires forall i | 0 <= i < |chain| :: chain[i].key != key
    ensures Stack(chain, key) == []
  {
    if chain == [] {
    } else {
      StackEmpty(chain[1..], key);
    }
  }

  // In a sorted chain, everything before the position of a key sorts before the key ...
  lemma BeforePosition<K(!new), V>(compare: (K, K) -> int, chain: Chain<K, V>, key: K, S: iset<K>, j: nat)
    requires Ordered(compare, S) && KeysIn(chain, S) && key in S && j < Position(compare, chain, key)
    ensures compare(chain[j].key, key) <= 0 && chain[j].key != key
  {
  }

  // ... and everything from there on sorts after it.
  lemma AfterPosition<K(!new), V>(compare: (K, K) -> int, chain: Chain<K, V>, key: K, S: iset<K>, j: nat)
    requires Ordered(compare, S) && KeysIn(chain, S) && Sorted(compare, chain) && key in S
    requires Position(compare, chain, key) <= j < |chain|
    ensures compare(key, chain[j].key) <= 0
  {
  }

  // The search succeeds exactly when the key is in the chain, and it finds the first item with it.
  lemma SearchIsExact<K(!new), V>(compare: (K, K) -> int, chain: Chain<K, V>, key: K, S: iset<K>)
    requires Ordered(compare, S) && KeysIn(chain, S) && Sorted(compare, chain) && key in S
    ensures Matches(compare, chain, key) ==> chain[Position(compare, chain, key)].key == key
    ensures !Matches(compare, chain, key) ==> forall j | 0 <= j < |chain| :: chain[j].key != key
  {
  }

  // An item that no item before it shares its key with is the top of the stack of its key.
  lemma FirstItemIsTop<K(!new), V>(before: Chain<K, V>, item: Item<K, V>, after: Chain<K, V>, q: K)
    requires forall j | 0 <= j < |before| :: before[j].key != item.key
    ensures Stack(before + [item] + after, q) ==
            (if q == item.key then [item.data] else []) + Stack(before + after, q)
  {
    StackConcat(before + [item], after, q);
    StackConcat(before, [item], q);
    StackConcat(before, after, q);
    assert [item][1..] == [];
    if q == item.key {
      StackEmpty(before, q);
    }
  }

  lemma InsertItemIsPush<K(!new), V>(compare: (K, K) -> int, chain: Chain<K, V>, key: K, data: V, q: K)
    requires compare(key, key) == 0
    ensures Stack(InsertItem(compare, chain, key, data), q) == (if q == key then [data] else []) + Stack(chain, q)
  {
    var i := Position(compare, chain, key);
    assert chain == chain[..i] + chain[i..];
    FirstItemIsTop(chain[..i], Item(key, data), chain[i..], q);
  }

  lemma RemoveItemIsPop<K(!new), V>(compare: (K, K) -> int, chain: Chain<K, V>, key: K, S: iset<K>, q: K)
    requires Ordered(compare, S) && KeysIn(chain, S) && Sorted(compare, chain) && key in S
    ensures Stack(RemoveItem(compare, chain, key), q) ==
            var s := Stack(chain, q); if q == key && s != [] then s[1..] else s
    ensures GetItem(compare, chain, key) == var s := Stack(chain, key); if s == [] then None else Some(s[0])
  {
    SearchIsExact(compare, chain, key, S);
    if Matches(compare, chain, key) {
      var i := Position(compare, chain, key);
      forall j | 0 <= j < i ensures chain[j].key != key {
        BeforePosition(compare, chain, key, S, j);
      }
      assert chain == chain[..i] + [chain[i]] + chain[i + 1..];
      FirstItemIsTop(chain[..i], chain[i], chain[i + 1..], q);
      FirstItemIsTop(chain[..i], chain[i], chain[i + 1..], key);
    } else {
      StackEmpty(chain, key);
    }
  }

  lemma InsertItemKeepsSorted<K(!new), V>(compare: (K, K) -> int, chain: Chain<K, V>, key: K, data: V, S: iset<K>)
    requires Ordered(compare, S) && KeysIn(chain, S) && Sorted(compare, chain) && key in S
    ensures Sorted(compare, InsertItem(compare, chain, key, data)) && KeysIn(InsertItem(compare, chain, key, data), S)
  {
    var i := Position(compare, chain, key);
    forall j | 0 <= j < i {
      BeforePosition(compare, chain, key, S, j);
    }
    forall j | i <= j < |chain| {
      AfterPosition(compare, chain, key, S, j);
    }
    SplicedSorted(compare, chain, i, Item(key, data), S);
  }

  lemma SplicedSorted<K(!new), V>(compare: (K, K) -> int, chain: Chain<K, V>, i: nat, item: Item<K, V>, S: iset<K>)
    requires KeysIn(chain, S) && Sorted(compare, chain) && item.key in S && i <= |chain|
    requires forall j | 0 <= j < i :: compare(chain[j].key, item.key) <= 0
    requires forall j | i <= j < |chain| :: compare(item.key, chain[j].key) <= 0
    ensures Sorted(compare, chain[..i] + [item] + chain[i..]) && KeysIn(chain[..i] + [item] + chain[i..], S)
  {
  }

  lemma RemoveItemKeepsSorted<K(!new), V>(compare: (K, K) -> int, chain: Chain<K, V>, key: K, S: iset<K>)
    requires KeysIn(chain, S) && Sorted(compare, chain)
    ensures Sorted(compare, RemoveItem(compare, chain, key)) && KeysIn(RemoveItem(compare, chain, key), S)
  {
  }

  // -------------------------------------------------------------- a table as a map to stacks

  function StackAt<K(==), V>(hash: K -> nat, t: Table<K, V>, key: K): seq<V>
    requires |t| > 0
  {
    Stack(t[Bucket(hash, |t|, key)], key)
  }

  /** Insertion pushes on the stack of its key and leaves every other key alone. An existing key
      is neither rejected nor overwritten: the new value shadows the old one. */
  lemma InsertRefinesPush<K(!new), V>(hash: K -> nat, compare: (K, K) -> int, t: Table<K, V>, key: K, data: V, S: iset<K>)
    requires |t| > 0 && BucketsOrdered(hash, compare, |t|, S) && WellFormed(hash, compare, t, S) && key in S
    ensures WellFormed(hash, compare, Insert(hash, compare, t, key, data), S)
    ensures forall q :: StackAt(hash, Insert(hash, compare, t, key, data), q) ==
              if q == key then [data] + StackAt(hash, t, q) else StackAt(hash, t, q)
  {
    var b := Bucket(hash, |t|, key);
    var Sb := Share(hash, |t|, S, b);
    InsertItemKeepsSorted(compare, t[b], key, data, Sb);
    forall q {
      InsertItemIsPush(compare, t[b], key, data, q);
    }
  }

  lemma RemoveRefinesPop<K(!new), V>(hash: K -> nat, compare: (K, K) -> int, t: Table<K, V>, key: K, S: iset<K>)
    requires |t| > 0 && BucketsOrdered(hash, compare, |t|, S) && WellFormed(hash, compare, t, S) && key in S
    ensures WellFormed(hash, compare, Remove(hash, compare, t, key), S)
    ensures forall q :: StackAt(hash, Remove(hash, compare, t, key), q) ==
              var s := StackAt(hash, t, q); if q == key && s != [] then s[1..] else s
  {
    var b := Bucket(hash, |t|, key);
    var Sb := Share(hash, |t|, S, b);
    RemoveItemKeepsSorted(compare, t[b], key, Sb);
    forall q {
      RemoveItemIsPop(compare, t[b], key, Sb, q);
    }
  }

  lemma GetRefinesPeek<K(!new), V>(hash: K -> nat, compare: (K, K) -> int, t: Table<K, V>, key: K, S: iset<K>)
    requires |t| > 0 && BucketsOrdered(hash, compare, |t|, S) && WellFormed(hash, compare, t, S) && key in S
    ensures Get(hash, compare, t, key) == var s := StackAt(hash, t, key); if s == [] then None else Some(s[0])
  {
    var b := Bucket(hash, |t|, key);
    RemoveItemIsPop(compare, t[b], key, Share(hash, |t|, S, b), key);
  }

  // ------------------------------------------------------------------------------ histories

  datatype Op<K, V> = Put(key: K, data: V) | Drop(key: K)

  // The table after a history of insertions and removals, most recent last.
  function Replay<K, V>(hash: K -> nat, compare: (K, K) -> int, n: nat, ops: seq<Op<K, V>>): (t: Table<K, V>)
    requires n > 0
    ensures |t| == n
  {
    if ops == [] then EmptyTable(n)
    else
      var t := Replay(hash, compare, n, ops[..|ops| - 1]);
      match ops[|ops| - 1]
      case Put(k, v) => Insert(hash, compare, t, k, v)
      case Drop(k) => Remove(hash, compare, t, k)
  }

  // What the same history leaves on the stack of one key, by exact equality of keys.
  function ReplayKey<K(==), V>(ops: seq<Op<K, V>>, key: K): seq<V> {
    if ops == [] then []
    else
      var s := ReplayKey(ops[..|ops| - 1], key);
      match ops[|ops| - 1]
      case Put(k, v) => if k == key then [v] + s else s
      case Drop(k) => if k == key && s != [] then s[1..] else s
  }

  ghost predicate OpsIn<K(!new), V>(ops: seq<Op<K, V>>, S: iset<K>) {
    forall i | 0 <= i < |ops| :: ops[i].key in S
  }

  // The table answers every lookup of a key of S as the map from keys to stacks does.
  ghost predicate Faithful<K(!new), V>(hash: K -> nat, compare: (K, K) -> int, n: nat, ops: seq<Op<K, V>>, S: iset<K>)
    requires n > 0
  {
    forall k | k in S ::
      var s := ReplayKey(ops, k);
      Get(hash, compare, Replay(hash, compare, n, ops), k) == if s == [] then None else Some(s[0])
  }

  lemma {:induction false} ReplayRefines<K(!new), V>(hash: K -> nat, compare: (K, K) -> int, n: nat, ops: seq<Op<K, V>>, S: iset<K>)
    requires n > 0 && BucketsOrdered(hash, compare, n, S) && OpsIn(ops, S)
    ensures WellFormed(hash, compare, Replay(hash, compare, n, ops), S)
    ensures forall k :: StackAt(hash, Replay(hash, compare, n, ops), k) == ReplayKey(ops, k)
  {
    if ops == [] {
    } else {
      var last := |ops| - 1;
      ReplayRefines(hash, compare, n, ops[..last], S);
      var t := Replay(hash, compare, n, ops[..last]);
      match ops[last]
      case Put(k, v) => InsertRefinesPush(hash, compare, t, k, v, S);
      case Drop(k) => RemoveRefinesPop(hash, compare, t, k, S);
    }
  }

  /** Over every history of insertions and removals of keys that are totally ordered within each
      bucket, the table is a map from keys to stacks. */
  lemma HistoryIsFaithful<K(!new), V>(hash: K -> nat, compare: (K, K) -> int, n: nat, ops: seq<Op<K, V>>, S: iset<K>)
    requires n > 0 && BucketsOrdered(hash, compare, n, S) && OpsIn(ops, S)
    ensures Faithful(hash, compare, n, ops, S)
  {
    ReplayRefines(hash, compare, n, ops, S);
    forall k | k in S {
      GetRefinesPeek(hash, compare, Replay(hash, compare, n, ops), k, S);
    }
  }
}
