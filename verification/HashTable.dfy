/** The hash table of libs/LSO_LIB/hash_utils.c: an array of list heads and items relinked in place. */
module HashTables {
  import opened Chains
  import opened TableMap

  class HashItem<K, V> {
    const key: K
    const data: V
    var next: HashItem?<K, V>
    ghost const bucket: nat   // the chain the item was made for

    constructor (key: K, data: V, next: HashItem?<K, V>, ghost bucket: nat)
      ensures this.key == key && this.data == data && this.next == next && this.bucket == bucket
    {
      this.key, this.data, this.next, this.bucket := key, data, next, bucket;
    }
  }

  // The nodes are linked by `next`, in order, from `head` up to `end`.
  ghost predicate Segment<K, V>(head: HashItem?<K, V>, nodes: seq<HashItem<K, V>>, end: HashItem?<K, V>)
    reads nodes
  {
    if nodes == [] then head == end
    else head == nodes[0] && Segment(nodes[0].next, nodes[1..], end)
  }

  ghost function First<K, V>(nodes: seq<HashItem<K, V>>, end: HashItem?<K, V>): HashItem?<K, V> {
    if nodes == [] then end else nodes[0]
  }

  lemma {:induction false} SegmentConcat<K, V>(head: HashItem?<K, V>, a: seq<HashItem<K, V>>, b: seq<HashItem<K, V>>, end: HashItem?<K, V>)
    ensures Segment(head, a + b, end) <==> Segment(head, a, First(b, end)) && Segment(First(b, end), b, end)
    decreases |a|
  {
    if a == [] {
      assert a + b == b;
    } else {
      assert (a + b)[0] == a[0] && (a + b)[1..] == a[1..] + b;
      SegmentConcat(a[0].next, a[1..], b, end);
    }
  }

  // A chain is determined by its head, so a chain that ends has no cycle.
  lemma {:induction false} ChainUnique<K, V>(head: HashItem?<K, V>, a: seq<HashItem<K, V>>, b: seq<HashItem<K, V>>)
    requires Segment(head, a, null) && Segment(head, b, null)
    ensures a == b
    decreases |a|
  {
    if a == [] || b == [] {
    } else {
      ChainUnique(a[0].next, a[1..], b[1..]);
      assert a == [a[0]] + a[1..] && b == [b[0]] + b[1..];
    }
  }

  lemma NodeOccursOnce<K, V>(head: HashItem?<K, V>, a: seq<HashItem<K, V>>, x: HashItem<K, V>, b: seq<HashItem<K, V>>)
    requires Segment(head, a + ([x] + b), null)
    ensures x !in a && x !in b
  {
    var nodes := a + ([x] + b);
    SegmentConcat(head, a, [x] + b, null);
    if i :| 0 <= i < |nodes| && i != |a| && nodes[i] == x {
      assert nodes == nodes[..i] + nodes[i..];
      SegmentConcat(head, nodes[..i], nodes[i..], null);
      ChainUnique(x, nodes[i..], [x] + b);
      assert false;
    }
    assert forall i | 0 <= i < |a| :: nodes[i] == a[i];
    assert forall i | 0 <= i < |b| :: nodes[|a| + 1 + i] == b[i];
  }

  // Cutting a chain in two: what is left is a chain, and the node before the cut is not in it.
  lemma ChainSplit<K, V>(head: HashItem?<K, V>, nodes: seq<HashItem<K, V>>, i: nat)
    requires Segment(head, nodes, null) && i <= |nodes|
    ensures Segment(First(nodes[i..], null), nodes[i..], null)
    ensures i > 0 ==> nodes[i - 1] !in nodes[i..]
  {
    assert nodes == nodes[..i] + nodes[i..];
    SegmentConcat(head, nodes[..i], nodes[i..], null);
    if i > 0 {
      assert nodes == nodes[..i - 1] + ([nodes[i - 1]] + nodes[i..]);
      NodeOccursOnce(head, nodes[..i - 1], nodes[i - 1], nodes[i..]);
    }
  }

  lemma ChainSplitAround<K, V>(head: HashItem?<K, V>, nodes: seq<HashItem<K, V>>, i: nat)
    requires Segment(head, nodes, null) && i < |nodes|
    ensures Segment(nodes[i].next, nodes[i + 1..], null)
    ensures i > 0 ==> nodes[i - 1] !in nodes[i + 1..]
  {
    ChainSplit(head, nodes, i);
    assert nodes[i..][1..] == nodes[i + 1..];
  }

  lemma ChainCons<K, V>(item: HashItem<K, V>, rest: seq<HashItem<K, V>>, prev: HashItem?<K, V>)
    requires Segment(item.next, rest, null) && prev != item && (prev == null || prev !in rest)
    ensures Segment(item, [item] + rest, null) && (prev == null || prev !in [item] + rest)
  {
  }

  ghost function Items<K, V>(nodes: seq<HashItem<K, V>>): (c: Chain<K, V>)
    ensures |c| == |nodes|
    ensures forall i | 0 <= i < |nodes| :: c[i] == Item(nodes[i].key, nodes[i].data)
  {
    seq(|nodes|, i requires 0 <= i < |nodes| => Item(nodes[i].key, nodes[i].data))
  }

  ghost function TableOf<K, V>(nodes: seq<seq<HashItem<K, V>>>): (t: Table<K, V>)
    ensures |t| == |nodes|
    ensures forall b | 0 <= b < |nodes| :: t[b] == Items(nodes[b])
  {
    seq(|nodes|, b requires 0 <= b < |nodes| => Items(nodes[b]))
  }

  // Splicing a node in at the position of its key, or cutting out the node found there, is what
  // the operations do to the table as a value.
  lemma SpliceIsInsert<K, V>(hash: K -> nat, compare: (K, K) -> int, nodes: seq<seq<HashItem<K, V>>>, b: nat,
                             i: nat, item: HashItem<K, V>)
    requires b < |nodes| && b == Bucket(hash, |nodes|, item.key)
    requires i == Position(compare, Items(nodes[b]), item.key)
    ensures TableOf(nodes[b := nodes[b][..i] + ([item] + nodes[b][i..])]) ==
            Insert(hash, compare, TableOf(nodes), item.key, item.data)
  {
    var was, now := nodes[b], nodes[b][..i] + ([item] + nodes[b][i..]);
    var chain := Items(was)[..i] + [Item(item.key, item.data)] + Items(was)[i..];
    assert Items(now) == chain;
  }

  lemma CutIsRemove<K, V>(hash: K -> nat, compare: (K, K) -> int, nodes: seq<seq<HashItem<K, V>>>, b: nat, i: nat, key: K)
    requires b < |nodes| && b == Bucket(hash, |nodes|, key)
    requires i < |nodes[b]| && i == Position(compare, Items(nodes[b]), key) && compare(key, nodes[b][i].key) == 0
    ensures TableOf(nodes[b := nodes[b][..i] + nodes[b][i + 1..]]) == Remove(hash, compare, TableOf(nodes), key)
  {
    var was, now := nodes[b], nodes[b][..i] + nodes[b][i + 1..];
    var chain := Items(was)[..i] + Items(was)[i + 1..];
    assert Items(now) == chain;
    assert chain == RemoveItem(compare, Items(was), key);
  }

  // hu_navigate_list: `prev` is the last item that the key sorts strictly after.
  method Navigate<K, V>(list: HashItem?<K, V>, key: K, compare: (K, K) -> int, ghost nodes: seq<HashItem<K, V>>)
    returns (curr: HashItem?<K, V>, prev: HashItem?<K, V>, ghost i: nat)
    requires Segment(list, nodes, null)
    ensures i == Position(compare, Items(nodes), key)
    ensures curr == if i < |nodes| then nodes[i] else null
    ensures prev == if i > 0 then nodes[i - 1] else null
  {
    curr, prev, i := list, null, 0;
    while curr != null && compare(key, curr.key) > 0
      invariant i <= |nodes|
      invariant Segment(curr, nodes[i..], null)
      invariant prev == if i > 0 then nodes[i - 1] else null
      invariant forall j | 0 <= j < i :: compare(key, nodes[j].key) > 0
      decreases |nodes| - i
    {
      prev := curr;
      curr := curr.next;
      assert nodes[i..][1..] == nodes[i + 1..];
      i := i + 1;
    }
    PositionUnique(compare, Items(nodes), key, i);
  }

  class HashTable<K(==), V> {
    const hash: K -> nat
    const compare: (K, K) -> int
    const table: array<HashItem?<K, V>>
    ghost var nodes: seq<seq<HashItem<K, V>>>   // the nodes of every chain
    ghost var Repr: set<HashItem<K, V>>

    ghost predicate Valid()
      reads this, table, Repr
    {
      && table.Length == |nodes| > 0
      && (forall b, i | 0 <= b < |nodes| && 0 <= i < |nodes[b]| :: nodes[b][i] in Repr && nodes[b][i].bucket == b)
      && (forall b | 0 <= b < |nodes| :: Segment(table[b], nodes[b], null))
    }

    ghost function Contents(): Table<K, V>
      reads this
    {
      TableOf(nodes)
    }

    constructor (n: nat, hash: K -> nat, compare: (K, K) -> int)
      requires n > 0
      ensures Valid() && Repr == {} && fresh(table)
      ensures this.hash == hash && this.compare == compare
      ensures Contents() == EmptyTable(n)
    {
      this.hash, this.compare := hash, compare;
      table := new HashItem?<K, V>[n](_ => null);
      nodes := seq(n, _ => []);
      new;
      Repr := {};
    }

    method Index(key: K) returns (b: nat)
      requires Valid()
      ensures b == Bucket(hash, |Contents()|, key) == hash(key) % table.Length
    {
      b := hash(key) % table.Length;
    }

    method IsEmpty() returns (empty: bool)
      requires Valid()
      ensures empty <==> forall b | 0 <= b < |Contents()| :: Contents()[b] == []
    {
      empty := true;
      var i := 0;
      while i < table.Length && empty
        invariant 0 <= i <= table.Length
        invariant empty ==> forall b | 0 <= b < i :: nodes[b] == []
        invariant !empty ==> i > 0 && Contents()[i - 1] != []
      {
        if table[i] != null {
          empty := false;
        }
        i := i + 1;
      }
    }

    // Make `next`, from which `tail` hangs, the head of the chain of bucket b.
    method SetHead(b: nat, next: HashItem?<K, V>, ghost tail: seq<HashItem<K, V>>)
      requires Valid() && b < |nodes|
      requires Segment(next, tail, null)
      requires forall i | 0 <= i < |tail| :: tail[i] in Repr && tail[i].bucket == b
      modifies `nodes, table
      ensures Valid() && Repr == old(Repr)
      ensures nodes == old(nodes)[b := tail]
    {
      table[b] := next;
      nodes := nodes[b := tail];
    }

    // Make `next`, from which `tail` hangs, follow `prev` in the chain of bucket b.
    method SetNext(b: nat, prev: HashItem<K, V>, next: HashItem?<K, V>,
                   ghost i: nat, ghost tail: seq<HashItem<K, V>>)
      requires Valid() && b < |nodes| && 0 < i <= |nodes[b]| && prev == nodes[b][i - 1]
      requires Segment(next, tail, null) && prev !in tail
      requires forall j | 0 <= j < |tail| :: tail[j] in Repr && tail[j].bucket == b
      modifies `nodes, prev
      ensures Valid() && Repr == old(Repr)
      ensures nodes == old(nodes)[b := old(nodes)[b][..i] + tail]
    {
      ghost var front, rest := nodes[b][..i - 1], nodes[b][i..];
      assert nodes[b] == front + ([prev] + rest);
      NodeOccursOnce(table[b], front, prev, rest);
      SegmentConcat(table[b], front, [prev] + rest, null);
      assert prev.bucket == b;
      prev.next := next;
      assert ([prev] + tail)[1..] == tail;
      SegmentConcat(table[b], front, [prev] + tail, null);
      assert nodes[b][..i] + tail == front + ([prev] + tail);
      nodes := nodes[b := nodes[b][..i] + tail];
    }

    method Relink(b: nat, prev: HashItem?<K, V>, next: HashItem?<K, V>, ghost i: nat, ghost tail: seq<HashItem<K, V>>)
      requires Valid() && b < |nodes| && i <= |nodes[b]| && prev == if i > 0 then nodes[b][i - 1] else null
      requires Segment(next, tail, null) && (prev == null || prev !in tail)
      requires forall j | 0 <= j < |tail| :: tail[j] in Repr && tail[j].bucket == b
      modifies `nodes, table, prev
      ensures Valid() && Repr == old(Repr)
      ensures nodes == old(nodes)[b := old(nodes)[b][..i] + tail]
    {
      if prev == null {
        assert nodes[b][..i] + tail == tail;
        SetHead(b, next, tail);
      } else {
        SetNext(b, prev, next, i, tail);
      }
    }

    // hu_insert
    method Put(key: K, data: V)
      requires Valid()
      modifies this, table, Repr
      ensures Valid() && fresh(Repr - old(Repr))
      ensures Contents() == Insert(hash, compare, old(Contents()), key, data)
    {
      hide TableOf, Items, Insert, Position;
      var b := Index(key);
      var curr, prev, i := Navigate(table[b], key, compare, nodes[b]);
      var item := new HashItem(key, data, curr, b);
      SpliceIsInsert(hash, compare, nodes, b, i, item);
      ghost var rest := nodes[b][i..];
      ChainSplit(table[b], nodes[b], i);
      Repr := Repr + {item};
      ChainCons(item, rest, prev);
      Relink(b, prev, item, i, [item] + rest);
    }

    // hu_remove; false when the source returns an error
    method Delete(key: K) returns (removed: bool)
      requires Valid()
      modifies this, table, Repr
      ensures Valid() && Repr == old(Repr)
      ensures Contents() == Remove(hash, compare, old(Contents()), key)
      ensures removed <==> old(Get(hash, compare, Contents(), key)).Some?
    {
      var empty := IsEmpty();
      if empty {
        assert Contents() == Remove(hash, compare, old(Contents()), key);
        return false;
      }
      var b := Index(key);
      var curr, prev, i := Navigate(table[b], key, compare, nodes[b]);
      if curr == null || compare(key, curr.key) != 0 {
        assert Contents() == Remove(hash, compare, old(Contents()), key);
        return false;
      }
      ChainSplitAround(table[b], nodes[b], i);
      CutIsRemove(hash, compare, nodes, b, i, key);
      Relink(b, prev, curr.next, i, nodes[b][i + 1..]);
      return true;
    }

    // hu_get
    method Find(key: K) returns (r: Option<V>)
      requires Valid()
      ensures r == Get(hash, compare, Contents(), key)
    {
      var empty := IsEmpty();
      if empty {
        return None;
      }
      var b := Index(key);
      var curr, prev, i := Navigate(table[b], key, compare, nodes[b]);
      if curr == null || compare(key, curr.key) != 0 {
        return None;
      }
      return Some(curr.data);
    }

    // hu_foreach, with a body that collects the items it visits
    method Traverse() returns (items: seq<Item<K, V>>)
      requires Valid()
      ensures items == Flatten(Contents())
    {
      items := [];
      ghost var t := Contents();
      for b := 0 to table.Length
        invariant items == Flatten(t[..b])
      {
        ghost var before, k := items, 0;
        var hi := table[b];
        while hi != null
          invariant k <= |nodes[b]| && Segment(hi, nodes[b][k..], null)
          invariant items == before + t[b][..k]
          decreases |nodes[b]| - k
        {
          assert nodes[b][k..][1..] == nodes[b][k + 1..] && hi == nodes[b][k];
          items := items + [Item(hi.key, hi.data)];
          hi := hi.next;
          k := k + 1;
        }
        assert t[..b + 1][..b] == t[..b] && t[b][..k] == t[b];
      }
      assert t[..table.Length] == t;
    }
  }
}
