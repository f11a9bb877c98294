/** The growable array of libs/LSO_LIB/array_utils.c, with its `is_sorted` flag, over the three
    library functions it calls: qsort, bsearch and lfind. */
module Arrays {

  // ------------------------------------------------------------------ the library functions

  // What ISO C asks of a comparison function (section 7.22.5 of ISO/IEC 9899:2011).
  ghost predicate TotalPreorder<T>(compare: (T, T) -> int, S: set<T>) {
    && (forall x, y | x in S && y in S :: compare(x, y) <= 0 <==> compare(y, x) >= 0)
    && (forall x, y, z | x in S && y in S && z in S && compare(x, y) <= 0 && compare(y, z) <= 0 :: compare(x, z) <= 0)
  }

  lemma PreorderTotal<T>(compare: (T, T) -> int, S: set<T>, x: T, y: T)
    requires TotalPreorder(compare, S) && x in S && y in S
    ensures compare(x, y) <= 0 <==> compare(y, x) >= 0
  {
  }

  lemma PreorderTransitive<T>(compare: (T, T) -> int, S: set<T>, x: T, y: T, z: T)
    requires TotalPreorder(compare, S) && x in S && y in S && z in S && compare(x, y) <= 0 && compare(y, z) <= 0
    ensures compare(x, z) <= 0
  {
  }

  ghost predicate SortedBy<T>(compare: (T, T) -> int, s: seq<T>) {
    forall i, j | 0 <= i < j < |s| :: compare(s[i], s[j]) <= 0
  }

  ghost function Elems<T>(s: seq<T>): set<T> {
    set x | x in s
  }

  function InsertInOrder<T>(compare: (T, T) -> int, s: seq<T>, x: T): (r: seq<T>)
    ensures multiset(r) == multiset(s) + multiset{x} && |r| == |s| + 1
  {
    if s == [] || compare(x, s[0]) <= 0 then [x] + s
    else
      assert s == [s[0]] + s[1..];
      [s[0]] + InsertInOrder(compare, s[1..], x)
  }

  function SortSeq<T>(compare: (T, T) -> int, s: seq<T>): (r: seq<T>)
    ensures multiset(r) == multiset(s) && |r| == |s|
  {
    if s == [] then []
    else
      assert s == [s[0]] + s[1..];
      InsertInOrder(compare, SortSeq(compare, s[1..]), s[0])
  }

  lemma PrependSorted<T>(compare: (T, T) -> int, x: T, s: seq<T>)
    requires SortedBy(compare, s) && forall i | 0 <= i < |s| :: compare(x, s[i]) <= 0
    ensures SortedBy(compare, [x] + s)
  {
  }

  lemma InsertInOrderElems<T>(compare: (T, T) -> int, s: seq<T>, x: T, y: T)
    requires y in InsertInOrder(compare, s, x)
    ensures y in s || y == x
  {
  }

  lemma {:induction false} InsertInOrderSorted<T>(compare: (T, T) -> int, s: seq<T>, x: T, S: set<T>)
    requires TotalPreorder(compare, S) && x in S && (forall y | y in s :: y in S) && SortedBy(compare, s)
    ensures SortedBy(compare, InsertInOrder(compare, s, x))
  {
    if s == [] {
    } else if compare(x, s[0]) <= 0 {
      forall j | 0 <= j < |s| ensures compare(x, s[j]) <= 0 {
        assert s[0] in s && s[j] in s;
      }
      PrependSorted(compare, x, s);
    } else {
      var r := InsertInOrder(compare, s[1..], x);
      InsertInOrderSorted(compare, s[1..], x, S);
      forall j | 0 <= j < |r| ensures compare(s[0], r[j]) <= 0 {
        assert s[0] in s;
        InsertInOrderElems(compare, s[1..], x, r[j]);
      }
      PrependSorted(compare, s[0], r);
    }
  }

  lemma {:induction false} SortSeqSorted<T>(compare: (T, T) -> int, s: seq<T>, S: set<T>)
    requires TotalPreorder(compare, S) && forall y | y in s :: y in S
    ensures SortedBy(compare, SortSeq(compare, s))
  {
    if s == [] {
    } else {
      SortSeqSorted(compare, s[1..], S);
      var r := SortSeq(compare, s[1..]);
      forall y | y in r ensures y in S {
        assert y in multiset(r) && y in multiset(s[1..]);
      }
      InsertInOrderSorted(compare, r, s[0], S);
    }
  }

  // qsort: a rearrangement whatever the comparison does, and in order when it is a total preorder.
  method Qsort<T>(a: array<T>, n: nat, compare: (T, T) -> int)
    requires n <= a.Length
    modifies a
    ensures multiset(a[..n]) == multiset(old(a[..n])) && a[n..] == old(a[n..])
    ensures TotalPreorder(compare, Elems(old(a[..n]))) ==> SortedBy(compare, a[..n])
  {
    var sorted := SortSeq(compare, a[..n]);
    if TotalPreorder(compare, Elems(a[..n])) {
      SortSeqSorted(compare, a[..n], Elems(a[..n]));
    }
    forall i | 0 <= i < n {
      a[i] := sorted[i];
    }
    assert a[..n] == sorted;
  }

  // In a sorted sequence a comparison with one element settles one side of it.
  lemma OneSideSettled<T>(compare: (T, T) -> int, s: seq<T>, obj: T, mid: nat, i: nat)
    requires SortedBy(compare, s) && TotalPreorder(compare, Elems(s) + {obj}) && mid < |s| && i < |s|
    ensures compare(obj, s[mid]) < 0 && mid <= i ==> compare(obj, s[i]) < 0
    ensures compare(obj, s[mid]) > 0 && i <= mid ==> compare(obj, s[i]) > 0
  {
    assert s[i] in s && s[mid] in s;
    assert compare(s[i], obj) <= 0 <==> compare(obj, s[i]) >= 0;
    if mid < i {
      assert compare(s[mid], s[i]) <= 0;
    } else if i < mid {
      assert compare(s[i], s[mid]) <= 0;
    }
  }

  // bsearch
  method BinarySearch<T>(obj: T, a: array<T>, n: nat, compare: (T, T) -> int) returns (r: int)
    requires n <= a.Length && SortedBy(compare, a[..n])
    requires TotalPreorder(compare, Elems(a[..n]) + {obj})
    ensures -1 <= r < n
    ensures r >= 0 ==> compare(obj, a[r]) == 0
    ensures r == -1 ==> forall i | 0 <= i < n :: compare(obj, a[i]) != 0
  {
    var lo, hi := 0, n;
    ghost var s := a[..n];
    while lo < hi
      invariant 0 <= lo <= hi <= n
      invariant forall i | 0 <= i < lo :: compare(obj, s[i]) > 0
      invariant forall i | hi <= i < n :: compare(obj, s[i]) < 0
    {
      var mid := (lo + hi) / 2;
      var c := compare(obj, a[mid]);
      if c == 0 {
        return mid;
      }
      forall i | 0 <= i < n {
        OneSideSettled(compare, s, obj, mid, i);
      }
      if c < 0 {
        hi := mid;
      } else {
        lo := mid + 1;
      }
    }
    assert forall i | 0 <= i < n :: a[i] == s[i];
    return -1;
  }

  // lfind
  method LinearSearch<T>(obj: T, a: array<T>, n: nat, compare: (T, T) -> int) returns (r: int)
    requires n <= a.Length
    ensures -1 <= r < n
    ensures r >= 0 ==> compare(obj, a[r]) == 0
    ensures r == -1 ==> forall i | 0 <= i < n :: compare(obj, a[i]) != 0
  {
    var i := 0;
    while i < n
      invariant 0 <= i <= n
      invariant forall j | 0 <= j < i :: compare(obj, a[j]) != 0
    {
      if compare(obj, a[i]) == 0 {
        return i;
      }
      i := i + 1;
    }
    return -1;
  }

  // ------------------------------------------------------------------------------ the array

  class UArr<T(0)> {
    const compare: (T, T) -> int
    var data: array<T>        // `len` of the source is data.Length
    var elementCount: nat
    var isSorted: bool

    // The flag is never wrong: an array that says it is sorted is sorted.
    ghost predicate Valid()
      reads this, data
    {
      elementCount <= data.Length && (isSorted ==> SortedBy(compare, Elements()))
    }

    ghost function Elements(): seq<T>
      requires elementCount <= data.Length
      reads this, data
    {
      data[..elementCount]
    }

    // The source makes an array of length 0 from a null pointer; nothing fits in either.
    constructor (len: nat, compare: (T, T) -> int)
      ensures Valid() && fresh(data) && this.compare == compare
      ensures Elements() == [] && data.Length == len && isSorted
    {
      this.compare := compare;
      data := new T[len];
      elementCount := 0;
      isSorted := true;
    }

    // au_insert; true stands for the return value 0
    method Insert(x: T) returns (ok: bool)
      requires Valid()
      modifies this, data
      ensures Valid() && data == old(data)
      ensures ok <==> old(elementCount) < data.Length
      ensures Elements() == if ok then old(Elements()) + [x] else old(Elements())
      ensures ok ==> !isSorted
    {
      if elementCount == data.Length {
        return false;
      }
      data[elementCount] := x;
      elementCount := elementCount + 1;
      isSorted := false;
      return true;
    }

    // au_index_of_obj: the answer is the same on either search path.
    method IndexOf(obj: T) returns (r: int)
      requires Valid()
      requires isSorted ==> TotalPreorder(compare, Elems(Elements()) + {obj})
      ensures -1 <= r < |Elements()|
      ensures r >= 0 ==> compare(obj, Elements()[r]) == 0
      ensures r == -1 <==> forall i | 0 <= i < |Elements()| :: compare(obj, Elements()[i]) != 0
    {
      if isSorted {
        r := BinarySearch(obj, data, elementCount, compare);
      } else {
        r := LinearSearch(obj, data, elementCount, compare);
      }
    }

    method SwapOut(k: nat)
      requires Valid() && k < elementCount
      modifies this, data
      ensures Valid() && data == old(data)
      ensures Elements() == var was := old(Elements()); was[k := was[|was| - 1]][..|was| - 1]
    {
      data[k] := data[elementCount - 1];
      elementCount := elementCount - 1;
      isSorted := false;
    }

    // au_remove: the last element takes the place of the removed one.
    method Remove(obj: T) returns (ok: bool, ghost i: int)
      requires Valid()
      requires isSorted ==> TotalPreorder(compare, Elems(Elements()) + {obj})
      modifies this, data
      ensures Valid() && data == old(data)
      ensures !ok <==> forall j | 0 <= j < |old(Elements())| :: compare(obj, old(Elements())[j]) != 0
      ensures !ok ==> Elements() == old(Elements())
      ensures ok ==> 0 <= i < |old(Elements())| && compare(obj, old(Elements())[i]) == 0
      ensures ok ==> multiset(Elements()) == multiset(old(Elements())) - multiset{old(Elements())[i]}
    {
      i := -1;
      if elementCount == 0 {
        return false, i;
      }
      var k := IndexOf(obj);
      if k == -1 {
        return false, i;
      }
      SwapRemoveMultiset(Elements(), k);
      SwapOut(k);
      return true, k;
    }

    // au_sort
    method Sort()
      requires Valid() && TotalPreorder(compare, Elems(Elements()))
      modifies this, data
      ensures Valid() && data == old(data) && isSorted
      ensures multiset(Elements()) == multiset(old(Elements()))
    {
      if isSorted {
        return;
      }
      Qsort(data, elementCount, compare);
      isSorted := true;
    }

    // au_extends: the elements that no longer fit are cut off, and what is left is still sorted.
    method Extend(newLen: nat) returns (ok: bool)
      requires Valid()
      modifies this
      ensures Valid() && (ok <==> newLen != 0) && isSorted == old(isSorted)
      ensures ok ==> fresh(data) && data.Length == newLen
      ensures !ok ==> data == old(data)
      ensures Elements() == if ok && newLen < |old(Elements())| then old(Elements())[..newLen] else old(Elements())
    {
      if newLen == 0 {
        return false;
      }
      ghost var was := Elements();
      if newLen < elementCount {
        elementCount := newLen;
      }
      var bigger := new T[newLen];
      forall i | 0 <= i < elementCount {
        bigger[i] := data[i];
      }
      data := bigger;
      assert Elements() == was[..elementCount];
      return true;
    }
  }

  lemma SwapRemoveMultiset<T>(s: seq<T>, k: nat)
    requires k < |s|
    ensures multiset(s[k := s[|s| - 1]][..|s| - 1]) == multiset(s) - multiset{s[k]}
  {
    var last := s[|s| - 1];
    var front := s[..|s| - 1];
    assert s == front + [last];
    if k == |s| - 1 {
      assert s[k := last][..k] == front;
    } else {
      assert s[k := last][..|s| - 1] == front[k := last];
      assert front == front[..k] + [s[k]] + front[k + 1..];
      assert front[k := last] == front[..k] + [last] + front[k + 1..];
    }
  }
}
