/** The shared data of the dispatcher and the workers as the server keeps it, updated in place.
    Each method is one action of Dispatcher.dfy. */
module ServerData {
  import opened PollArrays
  import opened Dispatcher

  // How many steps the search makes from one worker to another.
  function Steps(n: nat, from: nat, to: nat): int {
    if to >= from then to - from else to + n - from
  }

  class ServerInfos {
    const pollArr: PollArr
    const workersClients: array<int>
    const listener: int
    var next: nat                // the static `i` of assign_client
    ghost var done: seq<bool>    // the workers that have put their client back
    ghost var at: Where
    ghost var live: set<int>
    ghost var open: set<int>

    ghost predicate Consistent()
      reads this, pollArr, pollArr.arr, workersClients
    {
      && pollArr.Valid()
      && |done| == workersClients.Length > 0
      && next < workersClients.Length
    }

    ghost function State(): Server
      requires Consistent()
      reads this, pollArr, pollArr.arr, workersClients
    {
      Server(pollArr.Entries(), pollArr.arr.Length,
             seq(workersClients.Length, w requires 0 <= w < |done| == workersClients.Length reads this, workersClients =>
                   Worker(workersClients[w], done[w])),
             at, listener, live, open)
    }

    ghost predicate Valid()
      reads this, pollArr, pollArr.arr, workersClients
    {
      Consistent() && Inv(State())
    }

    constructor (nWorkers: nat, maxClients: nat, listener: int)
      requires nWorkers > 0 && maxClients > 0 && listener > 0
      ensures Valid() && Initial(State()) && State().maxlen == maxClients && |State().workers| == nWorkers
      ensures fresh(pollArr) && fresh(pollArr.arr) && fresh(workersClients)
    {
      pollArr := new PollArr(maxClients);
      workersClients := new int[nWorkers](_ => 0);
      this.listener := listener;
      next := 0;
      done := seq(nWorkers, _ => false);
      at, live, open := AtLoop, {}, {listener};
      new;
      var ok := pollArr.Add(listener, POLL_IN);
      InitialIsFine(State());
    }

    // accept has returned a descriptor
    method AddClient(fd: int) returns (ok: bool)
      requires Valid() && Enabled(State(), FinishAccept(fd))
      modifies `at, `live, `open, pollArr`len, pollArr.arr
      ensures Valid() && State() == Apply(old(State()), FinishAccept(fd))
      ensures ok <==> fd in live
    {
      ActionKeepsInv(State(), FinishAccept(fd));
      ok := pollArr.Add(fd, ACCEPT_EVENTS);
      at, open := AtLoop, open + {fd};
      if ok {
        live := live + {fd};
      }
      assert State().workers == old(State()).workers;
    }

    // One round of the search of assign_client for a free worker, from where the last search stopped;
    // the source makes another round as long as there is none.
    method FindFree() returns (found: bool, w: nat)
      requires Valid()
      modifies `next
      ensures Valid() && State() == old(State())
      ensures found <==> exists u :: 0 <= u < workersClients.Length && workersClients[u] == 0
      ensures if found then w < workersClients.Length && workersClients[w] == 0 && next == w else next == old(next)
      ensures found ==> forall u | 0 <= u < workersClients.Length && workersClients[u] == 0 ::
                          Steps(workersClients.Length, old(next), w) <= Steps(workersClients.Length, old(next), u)
    {
      var n := workersClients.Length;
      ghost var first := next;
      var seen := 0;
      while workersClients[next] != 0 && seen < n
        modifies `next
        invariant next < n && 0 <= seen <= n
        invariant next == if first + seen < n then first + seen else first + seen - n
        invariant forall u | 0 <= u < n && (first <= u < first + seen || u + n < first + seen) :: workersClients[u] != 0
        decreases n - seen
      {
        next := if next + 1 == n then 0 else next + 1;
        seen := seen + 1;
      }
      found, w := workersClients[next] == 0, next;
      assert State().workers == old(State()).workers;
    }

    // assign_client, in one round of its search
    method AssignClient(i: nat) returns (given: bool, w: nat)
      requires Valid() && at == AtLoop && ClientEntry(State(), i)
      modifies `next, `done, `at, workersClients
      ensures Valid()
      ensures given <==> exists u :: 0 <= u < workersClients.Length && old(workersClients[u]) == 0
      ensures given ==>
                next == w && Enabled(old(State()), Assign(i, w)) && State() == Apply(old(State()), Assign(i, w))
      ensures given ==> forall u | 0 <= u < workersClients.Length && old(workersClients[u]) == 0 ::
                          Steps(workersClients.Length, old(next), w) <= Steps(workersClients.Length, old(next), u)
      ensures !given ==> State() == old(State()) && next == old(next)
    {
      var client := pollArr.arr[i].fd;
      given, w := FindFree();
      if !given {
        return;
      }
      ActionKeepsInv(State(), Assign(i, w));
      workersClients[w] := client;
      done := done[w := false];
      at := Assigned(i);
      assert State().workers == old(State()).workers[w := Worker(client, false)];
    }

    // pu_remove after assign_client
    method TakeAssigned(i: nat)
      requires Valid() && at == Assigned(i)
      modifies `at, pollArr`len, pollArr`empty, pollArr.arr
      ensures Valid() && !pollArr.empty && State() == Apply(old(State()), RemoveAssigned)
    {
      ActionKeepsInv(State(), RemoveAssigned);
      pollArr.empty := false;
      var ok := pollArr.Remove(pollArr.arr[i].fd);
      at := AtLoop;
      assert State().workers == old(State()).workers;
    }

    // close and pu_remove of a client that hung up
    method DropHungUp(i: nat)
      requires Valid() && at == AtLoop && ClientEntry(State(), i)
      modifies `live, `open, pollArr`len, pollArr.arr
      ensures Valid() && State() == Apply(old(State()), HangUp(i))
    {
      ActionKeepsInv(State(), HangUp(i));
      ClientEntryIsLive(State(), i);
      var fd := pollArr.arr[i].fd;
      var ok := pollArr.Remove(fd);
      live, open := live - {fd}, open - {fd};
      assert State().workers == old(State()).workers;
    }

    // The worker has served its client and polls it again.
    method WorkerPutsBack(w: nat) returns (ok: bool)
      requires Valid() && Enabled(State(), PutBack(w))
      modifies `done, `live, pollArr`len, pollArr`empty, pollArr.arr
      ensures Valid() && pollArr.empty && State() == Apply(old(State()), PutBack(w))
      ensures ok <==> workersClients[w] in live
    {
      ActionKeepsInv(State(), PutBack(w));
      ServedIsLive(State(), w, workersClients[w]);
      var fd := workersClients[w];
      ok := pollArr.Add(fd, SERVE_EVENTS);
      pollArr.empty := true;
      done := done[w := true];
      if !ok {
        live := live - {fd};
      }
      assert State().workers == old(State()).workers[w := Worker(fd, true)];
    }

    // The end of the worker's turn: after putting its client back, or with nothing read from it.
    method WorkerFrees(w: nat)
      requires Valid() && w < workersClients.Length && workersClients[w] != 0
      modifies `done, `live, workersClients
      ensures Valid()
      ensures State() == Apply(old(State()), if old(done)[w] then ClearSlot(w) else Lose(w))
    {
      ActionKeepsInv(State(), if done[w] then ClearSlot(w) else Lose(w));
      if !done[w] {
        live := live - {workersClients[w]};
      }
      workersClients[w] := 0;
      done := done[w := false];
      assert State().workers == old(State()).workers[w := Worker(0, false)];
    }
  }
}
