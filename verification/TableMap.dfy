/** The hash table as a plain map, when no key is stored twice: what the file storage relies on. */
module TableMap {
  import opened Chains

  // The table is well formed, and the stack of every key is the one value the map has for it, if any.
  ghost predicate Represents<K(!new), V>(hash: K -> nat, compare: (K, K) -> int, t: Table<K, V>, m: map<K, V>, S: iset<K>) {
    && |t| > 0 && BucketsOrdered(hash, compare, |t|, S) && WellFormed(hash, compare, t, S)
    && Stacks(hash, t, m)
  }

  ghost predicate Stacks<K(!new), V>(hash: K -> nat, t: Table<K, V>, m: map<K, V>)
    requires |t| > 0
  {
    forall k :: StackAt(hash, t, k) == if k in m then [m[k]] else []
  }

  lemma EmptyRepresents<K(!new), V>(hash: K -> nat, compare: (K, K) -> int, n: nat, S: iset<K>)
    requires n > 0 && BucketsOrdered(hash, compare, n, S)
    ensures Represents<K, V>(hash, compare, EmptyTable(n), map[], S)
  {
  }

  lemma GetFromMap<K(!new), V>(hash: K -> nat, compare: (K, K) -> int, t: Table<K, V>, m: map<K, V>, key: K, S: iset<K>)
    requires Represents(hash, compare, t, m, S) && key in S
    ensures Get(hash, compare, t, key) == if key in m then Some(m[key]) else None
  {
    GetRefinesPeek(hash, compare, t, key, S);
    assert StackAt(hash, t, key) == if key in m then [m[key]] else [];
  }

  lemma InsertIntoMap<K(!new), V>(hash: K -> nat, compare: (K, K) -> int, t: Table<K, V>, m: map<K, V>, key: K, data: V, S: iset<K>)
    requires Represents(hash, compare, t, m, S) && key in S && key !in m
    ensures Represents(hash, compare, Insert(hash, compare, t, key, data), m[key := data], S)
  {
    InsertRefinesPush(hash, compare, t, key, data, S);
  }

  lemma RemoveFromMap<K(!new), V>(hash: K -> nat, compare: (K, K) -> int, t: Table<K, V>, m: map<K, V>, key: K, S: iset<K>)
    requires Represents(hash, compare, t, m, S) && key in S
    ensures Represents(hash, compare, Remove(hash, compare, t, key), m - {key}, S)
  {
    RemoveRefinesPop(hash, compare, t, key, S);
  }

  // ------------------------------------------------------------------------------ traversal

  // The items in the order hu_foreach visits them.
  function Flatten<K, V>(t: Table<K, V>): seq<Item<K, V>> {
    if t == [] then [] else Flatten(t[..|t| - 1]) + t[|t| - 1]
  }

  ghost predicate DistinctKeys<K, V>(items: seq<Item<K, V>>) {
    forall i, j | 0 <= i < j < |items| :: items[i].key != items[j].key
  }

  lemma StackOfTwo<K(!new), V>(chain: Chain<K, V>, i: nat, j: nat)
    requires i < j < |chain| && chain[i].key == chain[j].key
    ensures |Stack(chain, chain[i].key)| >= 2
  {
    assert chain == chain[..j] + chain[j..] && chain[..j] == chain[..i] + chain[i..j];
    StackConcat(chain[..j], chain[j..], chain[i].key);
    StackConcat(chain[..i], chain[i..j], chain[i].key);
    assert Stack(chain[i..j], chain[i].key) != [] && Stack(chain[j..], chain[i].key) != [];
  }

  lemma StackHasItem<K(!new), V>(chain: Chain<K, V>, i: nat)
    requires i < |chain|
    ensures chain[i].data in Stack(chain, chain[i].key)
  {
    assert chain == chain[..i] + chain[i..];
    StackConcat(chain[..i], chain[i..], chain[i].key);
    assert chain[i].data in Stack(chain[i..], chain[i].key);
  }

  lemma ChainKeysDistinct<K(!new), V>(hash: K -> nat, compare: (K, K) -> int, t: Table<K, V>, m: map<K, V>, S: iset<K>, b: nat)
    requires Represents(hash, compare, t, m, S) && b < |t|
    ensures DistinctKeys(t[b])
  {
    forall i, j | 0 <= i < j < |t[b]| ensures t[b][i].key != t[b][j].key {
      ItemInMap(hash, compare, t, m, S, b, i);
      if t[b][i].key == t[b][j].key {
        StackOfTwo(t[b], i, j);
      }
    }
  }

  // Every item of the table is the entry of the map at its key.
  lemma ItemInMap<K(!new), V>(hash: K -> nat, compare: (K, K) -> int, t: Table<K, V>, m: map<K, V>, S: iset<K>, b: nat, i: nat)
    requires Represents(hash, compare, t, m, S) && b < |t| && i < |t[b]|
    ensures t[b][i].key in m && m[t[b][i].key] == t[b][i].data
    ensures Bucket(hash, |t|, t[b][i].key) == b && |Stack(t[b], t[b][i].key)| == 1
  {
    var k := t[b][i].key;
    assert k in Share(hash, |t|, S, b);
    StackHasItem(t[b], i);
    assert StackAt(hash, t, k) == if k in m then [m[k]] else [];
  }

  // Every key of the map is somewhere in its bucket.
  lemma KeyInBucket<K(!new), V>(hash: K -> nat, compare: (K, K) -> int, t: Table<K, V>, m: map<K, V>, S: iset<K>, k: K)
    returns (i: nat)
    requires Represents(hash, compare, t, m, S) && k in m
    ensures var chain := t[Bucket(hash, |t|, k)]; i < |chain| && chain[i].key == k
  {
    var chain := t[Bucket(hash, |t|, k)];
    assert StackAt(hash, t, k) == [m[k]];
    if forall i | 0 <= i < |chain| :: chain[i].key != k {
      StackEmpty(chain, k);
    }
    i :| 0 <= i < |chain| && chain[i].key == k;
  }

  // What hu_foreach visits are entries of the map, no key twice ...
  lemma VisitsAreEntries<K(!new), V>(hash: K -> nat, compare: (K, K) -> int, t: Table<K, V>, m: map<K, V>, S: iset<K>)
    requires Represents(hash, compare, t, m, S)
    ensures FromBuckets(hash, |t|, m, Flatten(t), |t|)
  {
    hide Represents;
    FlattenPrefix(hash, compare, t, m, S, |t|);
    assert t[..|t|] == t;
  }

  // ... and it visits every key.
  lemma EveryKeyIsVisited<K(!new), V>(hash: K -> nat, compare: (K, K) -> int, t: Table<K, V>, m: map<K, V>, S: iset<K>, k: K)
    requires Represents(hash, compare, t, m, S) && k in m
    ensures exists i :: 0 <= i < |Flatten(t)| && Flatten(t)[i].key == k
  {
    var i := KeyInBucket(hash, compare, t, m, S, k);
    hide Represents, Flatten;
    FlattenHas(t, Bucket(hash, |t|, k), i);
  }

  /** hu_foreach visits every entry of the map, once. */
  lemma TraversalIsExact<K(!new), V>(hash: K -> nat, compare: (K, K) -> int, t: Table<K, V>, m: map<K, V>, S: iset<K>)
    requires Represents(hash, compare, t, m, S)
    ensures DistinctKeys(Flatten(t))
    ensures forall i | 0 <= i < |Flatten(t)| :: Flatten(t)[i].key in m && m[Flatten(t)[i].key] == Flatten(t)[i].data
    ensures forall k | k in m :: exists i :: 0 <= i < |Flatten(t)| && Flatten(t)[i].key == k
  {
    VisitsAreEntries(hash, compare, t, m, S);
    hide Represents, Flatten, DistinctKeys;
    forall k | k in m ensures exists i :: 0 <= i < |Flatten(t)| && Flatten(t)[i].key == k {
      EveryKeyIsVisited(hash, compare, t, m, S, k);
    }
  }

  lemma {:induction false} FlattenHas<K(!new), V>(t: Table<K, V>, b: nat, i: nat)
    requires b < |t| && i < |t[b]|
    ensures exists j :: 0 <= j < |Flatten(t)| && Flatten(t)[j].key == t[b][i].key
    decreases |t|
  {
    var last := |t| - 1;
    if b == last {
      assert Flatten(t)[|Flatten(t[..last])| + i] == t[b][i];
    } else {
      FlattenHas(t[..last], b, i);
      var j :| 0 <= j < |Flatten(t[..last])| && Flatten(t[..last])[j].key == t[..last][b][i].key;
      assert Flatten(t)[j] == Flatten(t[..last])[j];
    }
  }

  // The items of the first n buckets.
  ghost predicate FromBuckets<K(!new), V>(hash: K -> nat, size: nat, m: map<K, V>, items: seq<Item<K, V>>, n: nat)
    requires size > 0
  {
    && DistinctKeys(items)
    && forall i | 0 <= i < |items| :: items[i].key in m && m[items[i].key] == items[i].data && Bucket(hash, size, items[i].key) < n
  }

  lemma {:induction false} FlattenPrefix<K(!new), V>(hash: K -> nat, compare: (K, K) -> int, t: Table<K, V>, m: map<K, V>, S: iset<K>, n: nat)
    requires Represents(hash, compare, t, m, S) && n <= |t|
    ensures FromBuckets(hash, |t|, m, Flatten(t[..n]), n)
  {
    if n == 0 {
    } else {
      FlattenPrefix(hash, compare, t, m, S, n - 1);
      assert t[..n][..n - 1] == t[..n - 1] && t[..n][n - 1] == t[n - 1];
      ChainKeysDistinct(hash, compare, t, m, S, n - 1);
      var chain := t[n - 1];
      forall i | 0 <= i < |chain|
        ensures chain[i].key in m && m[chain[i].key] == chain[i].data && Bucket(hash, |t|, chain[i].key) == n - 1
      {
        ItemInMap(hash, compare, t, m, S, n - 1, i);
      }
      AppendBucket(hash, |t|, m, Flatten(t[..n - 1]), chain, n - 1);
    }
  }

  lemma AppendBucket<K(!new), V>(hash: K -> nat, size: nat, m: map<K, V>, items: seq<Item<K, V>>, chain: Chain<K, V>, b: nat)
    requires size > 0 && FromBuckets(hash, size, m, items, b) && DistinctKeys(chain)
    requires forall i | 0 <= i < |chain| ::
               chain[i].key in m && m[chain[i].key] == chain[i].data && Bucket(hash, size, chain[i].key) == b
    ensures FromBuckets(hash, size, m, items + chain, b + 1)
  {
  }

  // The items come bucket after bucket, and within a bucket in the order of the keys.
  ghost predicate InTableOrder<K(!new), V>(hash: K -> nat, compare: (K, K) -> int, size: nat, items: seq<Item<K, V>>)
    requires size > 0
  {
    forall i, j | 0 <= i < j < |items| ::
      var a, b := Bucket(hash, size, items[i].key), Bucket(hash, size, items[j].key);
      a < b || (a == b && compare(items[i].key, items[j].key) <= 0)
  }

  ghost predicate AllBelow<K(!new), V>(hash: K -> nat, size: nat, items: seq<Item<K, V>>, n: nat)
    requires size > 0
  {
    forall i | 0 <= i < |items| :: Bucket(hash, size, items[i].key) < n
  }

  lemma {:induction false} PrefixInTableOrder<K(!new), V>(hash: K -> nat, compare: (K, K) -> int, t: Table<K, V>, S: iset<K>, n: nat)
    requires |t| > 0 && WellFormed(hash, compare, t, S) && n <= |t|
    ensures InTableOrder(hash, compare, |t|, Flatten(t[..n])) && AllBelow(hash, |t|, Flatten(t[..n]), n)
  {
    if n > 0 {
      PrefixInTableOrder(hash, compare, t, S, n - 1);
      assert t[..n][..n - 1] == t[..n - 1] && t[..n][n - 1] == t[n - 1];
      var before, chain := Flatten(t[..n - 1]), t[n - 1];
      forall i | 0 <= i < |chain| ensures Bucket(hash, |t|, chain[i].key) == n - 1 {
        assert chain[i].key in Share(hash, |t|, S, n - 1);
      }
      BucketInTableOrder(hash, compare, |t|, before, chain, n - 1);
    }
  }

  lemma BucketInTableOrder<K(!new), V>(hash: K -> nat, compare: (K, K) -> int, size: nat, before: seq<Item<K, V>>,
                                      chain: Chain<K, V>, b: nat)
    requires size > 0 && InTableOrder(hash, compare, size, before) && AllBelow(hash, size, before, b)
    requires Sorted(compare, chain) && forall i | 0 <= i < |chain| :: Bucket(hash, size, chain[i].key) == b
    ensures InTableOrder(hash, compare, size, before + chain) && AllBelow(hash, size, before + chain, b + 1)
  {
    var all := before + chain;
    assert forall i | 0 <= i < |all| :: all[i] == if i < |before| then before[i] else chain[i - |before|];
  }

  /** hu_foreach visits the buckets in ascending order, and the keys of a bucket in theirs. */
  lemma TraversalInOrder<K(!new), V>(hash: K -> nat, compare: (K, K) -> int, t: Table<K, V>, S: iset<K>)
    requires |t| > 0 && WellFormed(hash, compare, t, S)
    ensures InTableOrder(hash, compare, |t|, Flatten(t))
  {
    PrefixInTableOrder(hash, compare, t, S, |t|);
    assert t[..|t|] == t;
  }
}
