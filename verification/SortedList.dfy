/** The sorted linked list of libs/LSO_LIB/list_utils.c. */
module SortedLists {
  import opened Arrays
  import opened Chains

  // ----------------------------------------------------------------------------- as a sequence

  // Where lu_navigate stops: at the first element that x does not sort strictly after.
  function Place<T>(compare: (T, T) -> int, s: seq<T>, x: T): (i: nat)
    ensures i <= |s| && (forall j | 0 <= j < i :: compare(x, s[j]) > 0) && (i < |s| ==> compare(x, s[i]) <= 0)
  {
    if s == [] || compare(x, s[0]) <= 0 then 0 else 1 + Place(compare, s[1..], x)
  }

  function Inserted<T>(compare: (T, T) -> int, s: seq<T>, x: T): seq<T> {
    var i := Place(compare, s, x);
    s[..i] + [x] + s[i..]
  }

  predicate Found<T>(compare: (T, T) -> int, s: seq<T>, x: T) {
    var i := Place(compare, s, x);
    i < |s| && compare(x, s[i]) == 0
  }

  function Removed<T>(compare: (T, T) -> int, s: seq<T>, x: T): seq<T> {
    var i := Place(compare, s, x);
    if Found(compare, s, x) then s[..i] + s[i + 1..] else s
  }

  // From the place of x on, x sorts after nothing; and nothing before it sorts after x.
  lemma {:induction false} AfterPlace<T>(compare: (T, T) -> int, s: seq<T>, x: T, j: nat)
    requires SortedBy(compare, s) && TotalPreorder(compare, Elems(s) + {x}) && Place(compare, s, x) <= j < |s|
    ensures compare(x, s[j]) <= 0
  {
    hide TotalPreorder;
    var i := Place(compare, s, x);
    if i < j {
      assert s[i] in s && s[j] in s;
      PreorderTransitive(compare, Elems(s) + {x}, x, s[i], s[j]);
    }
  }

  lemma {:induction false} PlaceSplits<T>(compare: (T, T) -> int, s: seq<T>, x: T)
    requires SortedBy(compare, s) && TotalPreorder(compare, Elems(s) + {x})
    ensures forall j | Place(compare, s, x) <= j < |s| :: compare(x, s[j]) <= 0
    ensures forall j | 0 <= j < Place(compare, s, x) :: compare(s[j], x) <= 0
  {
    hide SortedBy, TotalPreorder, Place;
    forall j | Place(compare, s, x) <= j < |s| ensures compare(x, s[j]) <= 0 {
      AfterPlace(compare, s, x, j);
    }
    forall j | 0 <= j < Place(compare, s, x) ensures compare(s[j], x) <= 0 {
      assert s[j] in s && compare(x, s[j]) > 0;
      PreorderTotal(compare, Elems(s) + {x}, s[j], x);
    }
  }

  lemma {:induction false} SortedWith<T>(compare: (T, T) -> int, s: seq<T>, i: nat, x: T)
    requires SortedBy(compare, s) && i <= |s|
    requires (forall j | i <= j < |s| :: compare(x, s[j]) <= 0) && (forall j | 0 <= j < i :: compare(s[j], x) <= 0)
    ensures SortedBy(compare, s[..i] + [x] + s[i..])
  {
    var r := s[..i] + [x] + s[i..];
    forall j, k | 0 <= j < k < |r| ensures compare(r[j], r[k]) <= 0 {
      assert r[j] == if j < i then s[j] else if j == i then x else s[j - 1];
      assert r[k] == if k < i then s[k] else if k == i then x else s[k - 1];
    }
  }

  lemma MultisetWith<T>(s: seq<T>, i: nat, x: T)
    requires i <= |s|
    ensures multiset(s[..i] + [x] + s[i..]) == multiset(s) + multiset{x}
  {
    assert s == s[..i] + s[i..];
  }

  lemma SortedWithout<T>(compare: (T, T) -> int, s: seq<T>, i: nat)
    requires SortedBy(compare, s) && i < |s|
    ensures SortedBy(compare, s[..i] + s[i + 1..])
  {
    var r := s[..i] + s[i + 1..];
    forall j, k | 0 <= j < k < |r| ensures compare(r[j], r[k]) <= 0 {
      assert r[j] == (if j < i then s[j] else s[j + 1]) && r[k] == if k < i then s[k] else s[k + 1];
    }
  }

  lemma MultisetWithout<T>(s: seq<T>, i: nat)
    requires i < |s|
    ensures multiset(s[..i] + s[i + 1..]) == multiset(s) - multiset{s[i]}
  {
    assert s == s[..i] + [s[i]] + s[i + 1..];
  }

  /** Insertion keeps the list sorted and adds exactly one element. */
  lemma InsertRefines<T>(compare: (T, T) -> int, s: seq<T>, x: T)
    requires SortedBy(compare, s) && TotalPreorder(compare, Elems(s) + {x})
    ensures SortedBy(compare, Inserted(compare, s, x))
    ensures multiset(Inserted(compare, s, x)) == multiset(s) + multiset{x}
  {
    hide TotalPreorder, SortedBy, Elems;
    var i := Place(compare, s, x);
    PlaceSplits(compare, s, x);
    SortedWith(compare, s, i, x);
    MultisetWith(s, i, x);
  }

  // An element equal to x is not before its place, and the element at its place is equal to x too.
  lemma FoundIff<T>(compare: (T, T) -> int, s: seq<T>, x: T, j: nat)
    requires SortedBy(compare, s) && TotalPreorder(compare, Elems(s) + {x}) && j < |s| && compare(x, s[j]) == 0
    ensures Found(compare, s, x)
  {
    hide TotalPreorder;
    var i, S := Place(compare, s, x), Elems(s) + {x};
    assert s[i] in s && s[j] in s && i <= j;
    PreorderTotal(compare, S, s[j], x);
    PreorderTotal(compare, S, s[i], x);
    if i < j {
      PreorderTransitive(compare, S, s[i], s[j], x);
    }
  }

  // Removal finds an element equal to x exactly when there is one.
  lemma FoundIffPresent<T>(compare: (T, T) -> int, s: seq<T>, x: T)
    requires SortedBy(compare, s) && TotalPreorder(compare, Elems(s) + {x})
    ensures Found(compare, s, x) <==> exists j :: 0 <= j < |s| && compare(x, s[j]) == 0
  {
    forall j | 0 <= j < |s| && compare(x, s[j]) == 0 ensures Found(compare, s, x) {
      FoundIff(compare, s, x, j);
    }
  }

  /** What removal finds is equal to x, and it takes out that element and nothing else; what is left
      is sorted. */
  lemma RemoveRefines<T>(compare: (T, T) -> int, s: seq<T>, x: T)
    requires SortedBy(compare, s)
    ensures SortedBy(compare, Removed(compare, s, x))
    ensures Found(compare, s, x) ==>
              var e := s[Place(compare, s, x)];
              compare(x, e) == 0 && multiset(Removed(compare, s, x)) == multiset(s) - multiset{e}
  {
    if Found(compare, s, x) {
      SortedWithout(compare, s, Place(compare, s, x));
      MultisetWithout(s, Place(compare, s, x));
    }
  }

  // lu_index_of_obj
  function IndexOf<T>(compare: (T, T) -> int, s: seq<T>, x: T): int {
    var i := Place(compare, s, x);
    if i == |s| then -1 else i
  }

  /** The index that lu_index_of_obj gives for an element of the list is that of the first element
      equal to it. For an absent one it is not -1, which would mean "not found", exactly when some
      element sorts after it. */
  lemma IndexIsFirst<T>(compare: (T, T) -> int, s: seq<T>, x: T)
    ensures Found(compare, s, x) ==>
              var i := IndexOf(compare, s, x);
              0 <= i < |s| && compare(x, s[i]) == 0 && forall j | 0 <= j < i :: compare(x, s[j]) != 0
    ensures !Found(compare, s, x) ==>
              (IndexOf(compare, s, x) != -1 <==> exists j :: 0 <= j < |s| && compare(x, s[j]) < 0)
  {
  }

  // ---------------------------------------------------------------------------------- in memory

  class ListNode<T> {
    const data: T
    var next: ListNode?<T>

    constructor (data: T, next: ListNode?<T>)
      ensures this.data == data && this.next == next
    {
      this.data, this.next := data, next;
    }
  }

  ghost function NodeAt<T>(nodes: seq<ListNode<T>>, i: nat): ListNode?<T> {
    if i < |nodes| then nodes[i] else null
  }

  // The nodes are linked in order, each once.
  ghost predicate Linked<T>(head: ListNode?<T>, nodes: seq<ListNode<T>>)
    reads nodes
  {
    && head == NodeAt(nodes, 0)
    && (forall i {:trigger nodes[i].next} | 0 <= i < |nodes| :: nodes[i].next == NodeAt(nodes, i + 1))
    && EachOnce(nodes)
  }

  ghost function DataOf<T>(nodes: seq<ListNode<T>>): (r: seq<T>)
    ensures |r| == |nodes| && forall i | 0 <= i < |nodes| :: r[i] == nodes[i].data
  {
    seq(|nodes|, i requires 0 <= i < |nodes| => nodes[i].data)
  }

  ghost predicate EachOnce<T>(nodes: seq<ListNode<T>>) {
    forall i, j | 0 <= i < j < |nodes| :: nodes[i] != nodes[j]
  }

  // `now` is what the nodes are to become: as they are up to node i, and linked from there on.
  ghost predicate Prepared<T>(nodes: seq<ListNode<T>>, i: nat, next: ListNode?<T>, now: seq<ListNode<T>>)
    reads now
  {
    && i <= |nodes| && i <= |now| && EachOnce(now) && next == NodeAt(now, i)
    && (forall j | 0 <= j < i :: now[j] == nodes[j])
    && (forall j {:trigger now[j].next} | i <= j < |now| :: now[j].next == NodeAt(now, j + 1))
  }

  // One more node before node i.
  lemma SplicedIn<T>(head: ListNode?<T>, nodes: seq<ListNode<T>>, i: nat, node: ListNode<T>) returns (now: seq<ListNode<T>>)
    requires Linked(head, nodes) && i <= |nodes| && node !in nodes && node.next == NodeAt(nodes, i)
    ensures Prepared(nodes, i, node, now) && |now| == |nodes| + 1
    ensures forall n | n in now :: n in nodes || n == node
    ensures DataOf(now) == DataOf(nodes)[..i] + [node.data] + DataOf(nodes)[i..]
  {
    now := nodes[..i] + [node] + nodes[i..];
    assert forall j | i < j < |now| :: now[j] == nodes[j - 1];
  }

  // Node i left out.
  lemma CutOut<T>(head: ListNode?<T>, nodes: seq<ListNode<T>>, i: nat) returns (now: seq<ListNode<T>>)
    requires Linked(head, nodes) && i < |nodes|
    ensures Prepared(nodes, i, nodes[i].next, now) && |now| == |nodes| - 1
    ensures DataOf(now) == DataOf(nodes)[..i] + DataOf(nodes)[i + 1..]
    ensures forall n | n in now :: n in nodes
  {
    now := nodes[..i] + nodes[i + 1..];
    assert forall j | i <= j < |now| :: now[j] == nodes[j + 1];
  }

  class LinkedList<T> {
    const compare: (T, T) -> int
    var head: ListNode?<T>
    var len: nat
    ghost var nodes: seq<ListNode<T>>

    ghost predicate Valid()
      reads this, nodes
    {
      len == |nodes| && Linked(head, nodes)
    }

    ghost function Elements(): seq<T>
      reads this
    {
      DataOf(nodes)
    }

    constructor (compare: (T, T) -> int)
      ensures Valid() && Elements() == [] && this.compare == compare && nodes == []
    {
      this.compare, head, len, nodes := compare, null, 0, [];
    }

    // lu_navigate
    method Navigate(x: T) returns (curr: ListNode?<T>, prev: ListNode?<T>, ghost i: nat)
      requires Valid()
      ensures i == Place(compare, Elements(), x)
      ensures curr == NodeAt(nodes, i) && prev == if i > 0 then nodes[i - 1] else null
    {
      curr, prev, i := head, null, 0;
      while curr != null && compare(x, curr.data) > 0
        invariant i <= |nodes| && curr == NodeAt(nodes, i)
        invariant prev == if i > 0 then nodes[i - 1] else null
        invariant forall j | 0 <= j < i :: compare(x, nodes[j].data) > 0
        decreases |nodes| - i
      {
        prev := curr;
        curr := curr.next;
        i := i + 1;
      }
      ghost var p := Place(compare, Elements(), x);
    }

    // Make `next` follow `prev`, or the head when there is no `prev`.
    method Relink(prev: ListNode?<T>, next: ListNode?<T>, ghost i: nat, ghost now: seq<ListNode<T>>)
      requires Linked(head, nodes) && i <= |nodes| && prev == if i > 0 then nodes[i - 1] else null
      requires Prepared(nodes, i, next, now)
      modifies `head, prev
      ensures Linked(head, now)
    {
      if prev == null {
        head := next;
      } else {
        assert prev == now[i - 1];
        prev.next := next;
      }
    }

    // lu_insert
    method Insert(x: T)
      requires Valid()
      modifies this, nodes
      ensures Valid() && forall n | n in nodes :: n in old(nodes) || fresh(n)
      ensures Elements() == Inserted(compare, old(Elements()), x)
    {
      var curr, prev, i := Navigate(x);
      var node := new ListNode(x, curr);
      ghost var now := SplicedIn(head, nodes, i, node);
      hide DataOf, Linked, Prepared;
      Relink(prev, node, i, now);
      nodes, len := now, len + 1;
    }

    // lu_remove; false stands for -1
    method Remove(x: T) returns (ok: bool)
      requires Valid()
      modifies this, nodes
      ensures Valid() && (ok <==> Found(compare, old(Elements()), x))
      ensures forall n | n in nodes :: n in old(nodes)
      ensures Elements() == Removed(compare, old(Elements()), x)
    {
      if len == 0 {
        return false;
      }
      var curr, prev, i := Navigate(x);
      if curr == null || compare(x, curr.data) != 0 {
        return false;
      }
      ghost var now := CutOut(head, nodes, i);
      assert Found(compare, Elements(), x);
      hide DataOf, Linked, Prepared;
      Relink(prev, curr.next, i, now);
      nodes, len := now, len - 1;
      return true;
    }

    // lu_index_of_obj
    method IndexOfObj(x: T) returns (r: int)
      requires Valid()
      ensures r == IndexOf(compare, Elements(), x)
    {
      var curr := head;
      r := 0;
      while curr != null && compare(x, curr.data) > 0
        invariant 0 <= r <= |nodes| && curr == NodeAt(nodes, r)
        invariant forall j | 0 <= j < r :: compare(x, nodes[j].data) > 0
        decreases |nodes| - r
      {
        curr := curr.next;
        r := r + 1;
      }
      ghost var p := Place(compare, Elements(), x);
      if curr == null {
        r := -1;
      }
    }

    // lu_get; None stands for NULL
    method Get(index: int) returns (r: Option<T>)
      requires Valid()
      ensures r == if 0 <= index < |Elements()| then Some(Elements()[index]) else None
    {
      if index < 0 || index >= len {
        return None;
      }
      var curr, left := head, index;
      while curr != null && left > 0
        invariant 0 <= left <= index && curr == NodeAt(nodes, index - left)
        decreases left
      {
        curr := curr.next;
        left := left - 1;
      }
      return if curr == null then None else Some(curr.data);
    }
  }
}
