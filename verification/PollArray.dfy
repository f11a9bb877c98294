/** The array of polled descriptors of src/poll_utils.c. */
module PollArrays {
  import opened Arrays

  datatype PollFd = PollFd(fd: int, events: int, revents: int)

  const ZERO_FD := PollFd(0, 0, 0)

  // -------------------------------------------------------------------- entries as a sequence

  function Fds(entries: seq<PollFd>): (r: seq<int>)
    ensures |r| == |entries| && forall i | 0 <= i < |r| :: r[i] == entries[i].fd
  {
    seq(|entries|, i requires 0 <= i < |entries| => entries[i].fd)
  }

  // How often a descriptor is polled.
  function Polled(entries: seq<PollFd>, fd: int): nat {
    multiset(Fds(entries))[fd]
  }

  // The last entry of a descriptor, or -1.
  function LastIndex(entries: seq<PollFd>, fd: int): (i: int)
    ensures -1 <= i < |entries|
    ensures i >= 0 ==> entries[i].fd == fd
    ensures forall j | i < j < |entries| :: entries[j].fd != fd
  {
    if entries == [] then -1
    else if entries[|entries| - 1].fd == fd then |entries| - 1
    else LastIndex(entries[..|entries| - 1], fd)
  }

  function PuAdd(entries: seq<PollFd>, maxlen: nat, fd: int, events: int): seq<PollFd> {
    if |entries| == maxlen then entries else entries + [PollFd(fd, events, 0)]
  }

  // The last entry of the array takes the place of the removed one.
  function PuRemove(entries: seq<PollFd>, fd: int): seq<PollFd> {
    var i := LastIndex(entries, fd);
    if i == -1 then entries
    else entries[i := entries[|entries| - 1]][..|entries| - 1]
  }

  lemma PolledAppend(entries: seq<PollFd>, e: PollFd, fd: int)
    ensures Polled(entries + [e], fd) == Polled(entries, fd) + (if e.fd == fd then 1 else 0)
  {
    assert Fds(entries + [e]) == Fds(entries) + [e.fd];
  }

  lemma PolledIffPresent(entries: seq<PollFd>, fd: int)
    ensures Polled(entries, fd) > 0 <==> LastIndex(entries, fd) >= 0
    ensures Polled(entries, fd) > 0 <==> exists i :: 0 <= i < |entries| && entries[i].fd == fd
  {
  }

  /** Adding counts one more entry of the descriptor, if there is room; removing counts one less,
      if there is one. Nothing else changes. */
  lemma AddRemoveAreExact(entries: seq<PollFd>, maxlen: nat, fd: int, events: int, q: int)
    requires |entries| <= maxlen
    ensures Polled(PuAdd(entries, maxlen, fd, events), q) ==
            Polled(entries, q) + (if q == fd && |entries| < maxlen then 1 else 0)
    ensures Polled(PuRemove(entries, fd), q) == Polled(entries, q) - (if q == fd && Polled(entries, fd) > 0 then 1 else 0)
  {
    PolledAppend(entries, PollFd(fd, events, 0), q);
    PolledIffPresent(entries, fd);
    var i := LastIndex(entries, fd);
    if i != -1 {
      var last := entries[|entries| - 1];
      var front := entries[..|entries| - 1];
      assert entries == front + [last];
      PolledAppend(front, last, q);
      var r := PuRemove(entries, fd);
      if i < |front| {
        assert r == front[i := last];
        assert Fds(r) == Fds(front)[i := last.fd];
      } else {
        assert r == front;
      }
    }
  }

  /** In terms of whole entries: adding puts in one entry, with the events asked for and none received;
      removing takes out exactly the last entry of the descriptor, and the entries before it stay where
      they are. */
  lemma EntriesAreExact(entries: seq<PollFd>, maxlen: nat, fd: int, events: int)
    ensures multiset(PuAdd(entries, maxlen, fd, events)) ==
            if |entries| == maxlen then multiset(entries) else multiset(entries) + multiset{PollFd(fd, events, 0)}
    ensures var i, r := LastIndex(entries, fd), PuRemove(entries, fd);
            if i == -1 then r == entries else multiset(r) == multiset(entries) - multiset{entries[i]} && r[..i] == entries[..i]
  {
    var i := LastIndex(entries, fd);
    if i != -1 {
      SwapRemoveMultiset(entries, i);
    }
  }

  // ------------------------------------------------------------------------------- the array

  class PollArr {
    const arr: array<PollFd>   // `maxlen` of the source is arr.Length
    var len: nat
    var empty: bool

    // The slots past the entries are zero.
    ghost predicate Valid()
      reads this, arr
    {
      len <= arr.Length && forall i | len <= i < arr.Length :: arr[i] == ZERO_FD
    }

    ghost function Entries(): seq<PollFd>
      requires len <= arr.Length
      reads this, arr
    {
      arr[..len]
    }

    constructor (maxlen: nat)
      ensures Valid() && fresh(arr) && arr.Length == maxlen
      ensures Entries() == [] && empty
    {
      arr := new PollFd[maxlen](_ => ZERO_FD);
      len, empty := 0, true;
    }

    method IsEmpty() returns (r: bool)
      ensures r <==> len == 0 && empty
    {
      r := len == 0 && empty;
    }

    method IsFull() returns (r: bool)
      ensures r <==> len == arr.Length
    {
      r := len == arr.Length;
    }

    // pu_add
    method Add(fd: int, events: int) returns (ok: bool)
      requires Valid()
      modifies `len, arr
      ensures Valid() && Entries() == PuAdd(old(Entries()), arr.Length, fd, events)
      ensures ok <==> old(len) < arr.Length
    {
      var full := IsFull();
      if full {
        return false;
      }
      arr[len] := PollFd(fd, events, 0);
      len := len + 1;
      return true;
    }

    // Move the last entry over entry i and clear its old slot.
    method TakeOut(i: nat)
      requires Valid() && i < len
      modifies `len, arr
      ensures Valid() && len == old(len) - 1
      ensures Entries() == var was := old(Entries()); was[i := was[|was| - 1]][..|was| - 1]
    {
      if i != len - 1 {
        arr[i] := arr[len - 1];
      }
      arr[len - 1] := ZERO_FD;
      len := len - 1;
    }

    // pu_remove. With no entry left but the `empty` flag down, the search looks at slot 0 all the
    // same: there must be one, and it must not be taken for the descriptor.
    method Remove(fd: int) returns (ok: bool)
      requires Valid()
      requires len == 0 && !empty ==> arr.Length > 0 && fd != 0
      modifies `len, arr
      ensures Valid() && Entries() == PuRemove(old(Entries()), fd)
      ensures ok <==> Polled(old(Entries()), fd) > 0
      ensures ok ==> len == old(len) - 1
    {
      PolledIffPresent(Entries(), fd);
      var isEmpty := IsEmpty();
      if isEmpty {
        return false;
      }
      var i := if len > 0 then len - 1 else 0;
      while i > 0 && arr[i].fd != fd
        invariant 0 <= i < arr.Length && (len > 0 ==> i < len) && (len == 0 ==> i == 0)
        invariant forall j | i < j < len :: arr[j].fd != fd
      {
        i := i - 1;
      }
      if i == 0 && arr[i].fd != fd {
        return false;
      }
      assert Entries()[i] == arr[i];
      assert forall j | i < j < len :: Entries()[j] == arr[j];
      assert LastIndex(Entries(), fd) == i;
      TakeOut(i);
      return true;
    }
  }
}
