/** The hand-over of clients between the dispatcher and the workers of src/server.c.

    A client's descriptor is polled, or it sits in the slot of a worker. Nothing protects the move:
    the dispatcher first puts the descriptor in a slot and takes it out of the poll array later,
    and in between the worker may serve the client and put the descriptor back. The actions below
    are these fine steps; each reads and writes the shared data at once. */
module Dispatcher {
  import opened PollArrays

  // Where the dispatcher stands: at a loop head, between pu_isfull and pu_add(accept()), or between
  // assign_client and pu_remove for the entry i.
  datatype Where = AtLoop | Accepting | Assigned(i: nat)

  // `slot` is workers_clients: 0 when the worker is free. A worker has `done` when it has put its
  // client back but not yet cleared its slot.
  datatype Worker = Worker(slot: int, done: bool)

  datatype Server = Server(
    poll: seq<PollFd>, maxlen: nat, workers: seq<Worker>, at: Where,
    listener: int,     // server_socket_fd
    live: set<int>,    // accepted clients that the server has neither closed nor lost
    open: set<int>)    // descriptors that accept cannot return now

  datatype Action =
    | CheckAccept               // server.c:156-158
    | FinishAccept(fd: int)     // server.c:160-163
    | AcceptFails               // accept returns -1, and -1 is polled
    | Assign(i: nat, w: nat)    // assign_client on entry i
    | RemoveAssigned            // server.c:176
    | PutBack(w: nat)           // server.c:257, a drop if the array is full
    | Lose(w: nat)              // the read fails or reads nothing: server.c:226-237, 245
    | ClearSlot(w: nat)         // server.c:263
    | HangUp(i: nat)            // server.c:149-153
    | StopListening             // server.c:139-140

  // The events of <poll.h> and of <signal.h> that the server asks for.
  const POLL_IN: int := 1
  const ACCEPT_EVENTS: int := 7       // POLL_IN | POLL_HUP
  const SERVE_EVENTS: int := 0x11     // POLLIN | POLLHUP

  predicate ClientEntry(s: Server, i: nat) {
    i < |s.poll| && s.poll[i].fd >= 0 && s.poll[i].fd != s.listener
  }

  // The worker serves the descriptor and has not put it back.
  predicate Serves(workers: seq<Worker>, w: nat, fd: int) {
    w < |workers| && workers[w].slot == fd && !workers[w].done
  }

  predicate Enabled(s: Server, a: Action) {
    match a
    case CheckAccept => s.at == AtLoop && Polled(s.poll, s.listener) > 0 && |s.poll| < s.maxlen
    case FinishAccept(fd) => s.at == Accepting && fd > 0 && fd !in s.open && fd != s.listener
    case AcceptFails => s.at == Accepting
    case Assign(i, w) => s.at == AtLoop && ClientEntry(s, i) && w < |s.workers| && s.workers[w].slot == 0
    case RemoveAssigned => s.at.Assigned?
    case PutBack(w) => w < |s.workers| && s.workers[w].slot != 0 && !s.workers[w].done
    case Lose(w) => w < |s.workers| && s.workers[w].slot != 0 && !s.workers[w].done
    case ClearSlot(w) => w < |s.workers| && s.workers[w].done
    case HangUp(i) => s.at == AtLoop && ClientEntry(s, i)
    case StopListening => s.at == AtLoop
  }

  function Add(s: Server, fd: int, events: int): Server {
    s.(poll := PuAdd(s.poll, s.maxlen, fd, events))
  }

  function SetWorker(s: Server, w: nat, worker: Worker): Server
    requires w < |s.workers|
  {
    s.(workers := s.workers[w := worker])
  }

  // The descriptor in a slot of the array; the slots that are not in use hold 0.
  function FdAt(poll: seq<PollFd>, i: nat): int {
    if i < |poll| then poll[i].fd else 0
  }

  function Apply(s: Server, a: Action): Server
    requires Enabled(s, a)
  {
    match a
    case CheckAccept => s.(at := Accepting)
    case FinishAccept(fd) =>
      var r := Add(s, fd, ACCEPT_EVENTS).(at := AtLoop, open := s.open + {fd});
      if |s.poll| < s.maxlen then r.(live := s.live + {fd}) else r
    case AcceptFails => Add(s, -1, ACCEPT_EVENTS).(at := AtLoop)
    case Assign(i, w) => SetWorker(s, w, Worker(s.poll[i].fd, false)).(at := Assigned(i))
    case RemoveAssigned => s.(poll := PuRemove(s.poll, FdAt(s.poll, s.at.i)), at := AtLoop)
    case PutBack(w) =>
      var fd := s.workers[w].slot;
      var r := SetWorker(Add(s, fd, SERVE_EVENTS), w, Worker(fd, true));
      if |s.poll| < s.maxlen then r else r.(live := s.live - {fd})
    case Lose(w) => SetWorker(s, w, Worker(0, false)).(live := s.live - {s.workers[w].slot})
    case ClearSlot(w) => SetWorker(s, w, Worker(0, false))
    case HangUp(i) =>
      var fd := s.poll[i].fd;
      s.(poll := PuRemove(s.poll, fd), live := s.live - {fd}, open := s.open - {fd})
    case StopListening => s.(poll := PuRemove(s.poll, s.listener))
  }

  // ------------------------------------------------------------------------------ invariant

  // The entry that the dispatcher is about to remove is still where it was.
  predicate Shape(s: Server) {
    && |s.poll| <= s.maxlen
    && (s.at.Assigned? ==> s.at.i < |s.poll| && s.poll[s.at.i].fd > 0 && s.poll[s.at.i].fd != s.listener)
  }

  function Serving(workers: seq<Worker>, fd: int): set<nat> {
    set w: nat | w < |workers| && Serves(workers, w, fd)
  }

  function One(b: bool): nat { if b then 1 else 0 }

  predicate BeingMoved(s: Server, fd: int) {
    s.at.Assigned? && s.at.i < |s.poll| && s.poll[s.at.i].fd == fd
  }

  // The entries of a client in the poll array and in the slots of workers that still serve it add
  // up to one if it is live, and to one more while the dispatcher moves it.
  ghost predicate Conserved(s: Server, fd: int) {
    Polled(s.poll, fd) + |Serving(s.workers, fd)| == One(fd in s.live) + One(BeingMoved(s, fd))
  }

  ghost predicate Inv(s: Server) {
    && Shape(s) && s.listener > 0
    && Polled(s.poll, 0) == 0 && s.live <= s.open && s.listener !in s.live && (forall fd | fd in s.live :: fd > 0)
    && (forall w | 0 <= w < |s.workers| :: s.workers[w].slot != s.listener && s.workers[w].slot >= 0)
    && (forall w | 0 <= w < |s.workers| && s.workers[w].done :: s.workers[w].slot > 0)
    && (forall fd | fd > 0 && fd != s.listener :: Conserved(s, fd))
  }

  // A worker that takes up a client, or stops serving one.
  lemma ServingAfter(workers: seq<Worker>, w: nat, worker: Worker, fd: int)
    requires w < |workers|
    ensures |Serving(workers[w := worker], fd)| ==
            |Serving(workers, fd)| - One(Serves(workers, w, fd)) + One(worker.slot == fd && !worker.done)
  {
    var now := workers[w := worker];
    var others := Serving(workers, fd) - {w};
    assert Serving(now, fd) == if Serves(now, w, fd) then others + {w} else others by {
      forall u: nat ensures u in Serving(now, fd) <==> u in (if Serves(now, w, fd) then others + {w} else others) {}
    }
    assert Serves(workers, w, fd) <==> w in Serving(workers, fd);
  }

  lemma PollUnchangedAt(s: Server, fd: int, events: int, i: nat)
    requires i < |s.poll| <= s.maxlen
    ensures i < |Add(s, fd, events).poll| && Add(s, fd, events).poll[i] == s.poll[i]
  {
  }

  // The entry i shows that its descriptor is polled.
  lemma EntryIsPolled(s: Server, i: nat)
    requires i < |s.poll|
    ensures Polled(s.poll, s.poll[i].fd) > 0
  {
  }

  lemma DispatcherKeepsConserved(s: Server, a: Action, fd: int)
    requires Inv(s) && Enabled(s, a) && fd > 0 && fd != s.listener
    requires a.CheckAccept? || a.FinishAccept? || a.AcceptFails? || a.RemoveAssigned? || a.HangUp? || a.StopListening?
    ensures Conserved(Apply(s, a), fd)
  {
    var r := Apply(s, a);
    assert Conserved(s, fd);
    match a
    case CheckAccept =>
    case FinishAccept(new_fd) => AddRemoveAreExact(s.poll, s.maxlen, new_fd, ACCEPT_EVENTS, fd);
    case AcceptFails => AddRemoveAreExact(s.poll, s.maxlen, -1, ACCEPT_EVENTS, fd);
    case RemoveAssigned =>
      EntryIsPolled(s, s.at.i);
      AddRemoveAreExact(s.poll, s.maxlen, s.poll[s.at.i].fd, POLL_IN, fd);
    case HangUp(i) =>
      EntryIsPolled(s, i);
      AddRemoveAreExact(s.poll, s.maxlen, s.poll[i].fd, POLL_IN, fd);
    case StopListening => AddRemoveAreExact(s.poll, s.maxlen, s.listener, POLL_IN, fd);
  }

  lemma AssignKeepsConserved(s: Server, i: nat, w: nat, fd: int)
    requires Inv(s) && Enabled(s, Assign(i, w)) && fd > 0 && fd != s.listener
    ensures Conserved(Apply(s, Assign(i, w)), fd)
  {
    assert Conserved(s, fd);
    ServingAfter(s.workers, w, Worker(s.poll[i].fd, false), fd);
    if s.poll[i].fd == fd {
      EntryIsPolled(s, i);
      assert s.workers[w].slot != fd && |Serving(s.workers, fd)| == 0 && fd in s.live;
    }
  }

  lemma PutBackKeepsConserved(s: Server, w: nat, fd: int)
    requires Inv(s) && Enabled(s, PutBack(w)) && fd > 0 && fd != s.listener
    ensures Conserved(Apply(s, PutBack(w)), fd)
  {
    var slot := s.workers[w].slot;
    assert Conserved(s, fd);
    AddRemoveAreExact(s.poll, s.maxlen, slot, SERVE_EVENTS, fd);
    ServingAfter(s.workers, w, Worker(slot, true), fd);
    ServedIsLive(s, w, slot);
    assert BeingMoved(Apply(s, PutBack(w)), fd) == BeingMoved(s, fd) by {
      if s.at.Assigned? {
        PollUnchangedAt(s, slot, SERVE_EVENTS, s.at.i);
      }
    }
  }

  lemma LoseKeepsConserved(s: Server, w: nat, fd: int)
    requires Inv(s) && Enabled(s, Lose(w)) && fd > 0 && fd != s.listener
    ensures Conserved(Apply(s, Lose(w)), fd)
  {
    assert Conserved(s, fd);
    ServingAfter(s.workers, w, Worker(0, false), fd);
    ServedIsLive(s, w, s.workers[w].slot);
  }

  lemma ClearSlotKeepsConserved(s: Server, w: nat, fd: int)
    requires Inv(s) && Enabled(s, ClearSlot(w)) && fd > 0 && fd != s.listener
    ensures Conserved(Apply(s, ClearSlot(w)), fd)
  {
    assert Conserved(s, fd);
    ServingAfter(s.workers, w, Worker(0, false), fd);
  }

  // A client that is served is live, is served by one worker, and is not polled unless it is
  // still being moved.
  lemma ServedIsLive(s: Server, w: nat, fd: int)
    requires Inv(s) && Serves(s.workers, w, fd) && fd > 0
    ensures fd in s.live && Serving(s.workers, fd) == {w}
    ensures Polled(s.poll, fd) == One(BeingMoved(s, fd))
  {
    assert fd != s.listener && Conserved(s, fd);
    assert w in Serving(s.workers, fd);
    assert |Serving(s.workers, fd)| >= 1;
    if BeingMoved(s, fd) {
      EntryIsPolled(s, s.at.i);
    }
    OnlyOne(Serving(s.workers, fd), w);
  }

  lemma OnlyOne(ws: set<nat>, w: nat)
    requires w in ws && |ws| <= 1
    ensures ws == {w}
  {
    assert |ws - {w}| == 0;
  }

  lemma ActionKeepsConserved(s: Server, a: Action, fd: int)
    requires Inv(s) && Enabled(s, a) && fd > 0 && fd != s.listener
    ensures Conserved(Apply(s, a), fd)
  {
    match a
    case Assign(i, w) => AssignKeepsConserved(s, i, w, fd);
    case PutBack(w) => PutBackKeepsConserved(s, w, fd);
    case Lose(w) => LoseKeepsConserved(s, w, fd);
    case ClearSlot(w) => ClearSlotKeepsConserved(s, w, fd);
    case _ => DispatcherKeepsConserved(s, a, fd);
  }

  // Descriptor 0, which would look like a free slot, is never polled.
  lemma ActionKeepsZeroOut(s: Server, a: Action)
    requires Inv(s) && Enabled(s, a)
    ensures Polled(Apply(s, a).poll, 0) == 0
  {
  }

  // A polled client is never descriptor 0, and it is live unless it is being moved.
  lemma ClientEntryIsLive(s: Server, i: nat)
    requires Inv(s) && ClientEntry(s, i) && s.at == AtLoop
    ensures s.poll[i].fd > 0 && s.poll[i].fd in s.live && Serving(s.workers, s.poll[i].fd) == {}
  {
    EntryIsPolled(s, i);
    assert Conserved(s, s.poll[i].fd);
  }

  lemma ActionKeepsInv(s: Server, a: Action)
    requires Inv(s) && Enabled(s, a)
    ensures Inv(Apply(s, a))
  {
    var r := Apply(s, a);
    forall fd | fd > 0 && fd != r.listener ensures Conserved(r, fd) {
      ActionKeepsConserved(s, a, fd);
    }
    ActionKeepsZeroOut(s, a);
    match a
    case Assign(i, _) => ClientEntryIsLive(s, i);
    case HangUp(i) => ClientEntryIsLive(s, i);
    case PutBack(w) =>
      if s.at.Assigned? {
        PollUnchangedAt(s, s.workers[w].slot, SERVE_EVENTS, s.at.i);
      }
    case _ =>
  }

  predicate Runs(s: Server, actions: seq<Action>)
    decreases |actions|
  {
    actions == [] || (Enabled(s, actions[0]) && Runs(Apply(s, actions[0]), actions[1..]))
  }

  function After(s: Server, actions: seq<Action>): Server
    requires Runs(s, actions)
    decreases |actions|
  {
    if actions == [] then s else After(Apply(s, actions[0]), actions[1..])
  }

  ghost predicate Initial(s: Server) {
    && s.listener > 0 && s.poll == [PollFd(s.listener, POLL_IN, 0)] && s.maxlen > 0
    && s.at == AtLoop && s.live == {} && s.listener in s.open
    && forall w | 0 <= w < |s.workers| :: s.workers[w] == Worker(0, false)
  }

  lemma InitialIsFine(s: Server)
    requires Initial(s)
    ensures Inv(s)
  {
  }

  lemma {:induction false} RunKeepsInv(s: Server, actions: seq<Action>)
    requires Inv(s) && Runs(s, actions)
    ensures Inv(After(s, actions))
    decreases |actions|
  {
    if actions == [] {
    } else {
      ActionKeepsInv(s, actions[0]);
      RunKeepsInv(Apply(s, actions[0]), actions[1..]);
    }
  }

  /** In every interleaving of the dispatcher and the workers a client is served by at most one
      worker, only while it is live, and is never polled at the same time, except for the moment
      in which the dispatcher has assigned it and not yet taken it out of the array. */
  lemma ServedByAtMostOne(s: Server, actions: seq<Action>, w: nat, fd: int)
    requires Initial(s) && Runs(s, actions) && fd > 0 && Serves(After(s, actions).workers, w, fd)
    ensures var r := After(s, actions);
            && fd in r.live && Serving(r.workers, fd) == {w}
            && Polled(r.poll, fd) == One(BeingMoved(r, fd))
  {
    InitialIsFine(s);
    RunKeepsInv(s, actions);
    ServedIsLive(After(s, actions), w, fd);
  }

  /** The dispatcher closes and assigns only clients that no worker serves: the descriptor is not
      pulled out from under a worker, and not handed to a second one. */
  lemma DispatcherTouchesOnlyIdleClients(s: Server, actions: seq<Action>, a: Action)
    requires Initial(s) && Runs(s, actions) && Enabled(After(s, actions), a) && (a.HangUp? || a.Assign?)
    ensures var r := After(s, actions);
            r.poll[a.i].fd in r.live && Serving(r.workers, r.poll[a.i].fd) == {}
  {
    InitialIsFine(s);
    RunKeepsInv(s, actions);
    ClientEntryIsLive(After(s, actions), a.i);
  }

  /** No live client is forgotten: each is polled or served, at every moment. */
  lemma LiveClientIsSomewhere(s: Server, actions: seq<Action>, fd: int)
    requires Initial(s) && Runs(s, actions) && fd in After(s, actions).live
    ensures Polled(After(s, actions).poll, fd) + |Serving(After(s, actions).workers, fd)| >= 1
  {
    InitialIsFine(s);
    RunKeepsInv(s, actions);
    var r := After(s, actions);
    assert Conserved(r, fd);
  }

  // ----------------------------------------------------------------------------- the events

  // Input is asked for; the bit is POLLIN.
  ghost predicate Watched(poll: seq<PollFd>) {
    forall e | e in poll :: e.events % 2 == 1 && e.revents == 0
  }

  lemma ActionKeepsWatched(s: Server, a: Action)
    requires Watched(s.poll) && Enabled(s, a)
    ensures Watched(Apply(s, a).poll)
  {
    forall e | e in Apply(s, a).poll ensures e.events % 2 == 1 && e.revents == 0 {
      match a
      case FinishAccept(fd) => AddedOrOld(s.poll, s.maxlen, fd, ACCEPT_EVENTS, e);
      case AcceptFails => AddedOrOld(s.poll, s.maxlen, -1, ACCEPT_EVENTS, e);
      case PutBack(w) => AddedOrOld(s.poll, s.maxlen, s.workers[w].slot, SERVE_EVENTS, e);
      case RemoveAssigned => LeftIsOld(s.poll, FdAt(s.poll, s.at.i), e);
      case HangUp(i) => LeftIsOld(s.poll, s.poll[i].fd, e);
      case StopListening => LeftIsOld(s.poll, s.listener, e);
      case _ =>
    }
  }

  lemma AddedOrOld(poll: seq<PollFd>, maxlen: nat, fd: int, events: int, e: PollFd)
    requires e in PuAdd(poll, maxlen, fd, events)
    ensures e in poll || e == PollFd(fd, events, 0)
  {
  }

  lemma LeftIsOld(poll: seq<PollFd>, fd: int, e: PollFd)
    requires e in PuRemove(poll, fd)
    ensures e in poll
  {
    EntriesAreExact(poll, |poll|, fd, 0);
    assert e in multiset(PuRemove(poll, fd));
  }

  /** Whatever is in the poll array, at every moment of every run, is watched for input. */
  lemma {:induction false} EveryEntryIsWatched(s: Server, actions: seq<Action>)
    requires Watched(s.poll) && Runs(s, actions)
    ensures Watched(After(s, actions).poll)
    decreases |actions|
  {
    if actions != [] {
      ActionKeepsWatched(s, actions[0]);
      EveryEntryIsWatched(Apply(s, actions[0]), actions[1..]);
    }
  }

  // --------------------------------------------------------------------------- what can happen

  lemma RunCons(s: Server, a: Action, rest: seq<Action>)
    requires Enabled(s, a) && Runs(Apply(s, a), rest)
    ensures Runs(s, [a] + rest) && After(s, [a] + rest) == After(Apply(s, a), rest)
  {
    assert ([a] + rest)[0] == a && ([a] + rest)[1..] == rest;
  }

  // Putting an entry behind leaves those before it.
  lemma WorkerCanBeFreed(s: Server, w: nat, i: nat) returns (r: Server, actions: seq<Action>)
    requires Inv(s) && s.at == AtLoop && w < |s.workers| && ClientEntry(s, i)
    ensures Runs(s, actions) && After(s, actions) == r && |actions| <= 2
    ensures Inv(r) && r.at == AtLoop && |r.workers| == |s.workers| && r.workers[w].slot == 0
    ensures ClientEntry(r, i) && r.poll[i] == s.poll[i]
  {
    r, actions := s, [];
    if s.workers[w].slot != 0 {
      var s1 := s;
      if !s.workers[w].done {
        ActionKeepsInv(s, PutBack(w));
        s1 := Apply(s, PutBack(w));
        PollUnchangedAt(s, s.workers[w].slot, SERVE_EVENTS, i);
      }
      ActionKeepsInv(s1, ClearSlot(w));
      r := Apply(s1, ClearSlot(w));
      RunCons(s1, ClearSlot(w), []);
      actions := [ClearSlot(w)] + [];
      if !s.workers[w].done {
        RunCons(s, PutBack(w), actions);
        actions := [PutBack(w)] + actions;
      }
    }
  }

  /** Any client that is polled can be given to any worker, within three actions: the worker puts its
      own client back, clears its slot, and is assigned. */
  lemma AnyClientCanBeServed(s: Server, i: nat, w: nat) returns (actions: seq<Action>)
    requires Inv(s) && s.at == AtLoop && ClientEntry(s, i) && w < |s.workers|
    ensures Runs(s, actions) && |actions| <= 3 && Serves(After(s, actions).workers, w, s.poll[i].fd)
  {
    var r, first := WorkerCanBeFreed(s, w, i);
    RunCons(r, Assign(i, w), []);
    actions := first + ([Assign(i, w)] + []);
    RunAppend(s, first, [Assign(i, w)] + []);
  }

  lemma {:induction false} RunAppend(s: Server, first: seq<Action>, second: seq<Action>)
    requires Runs(s, first) && Runs(After(s, first), second)
    ensures Runs(s, first + second) && After(s, first + second) == After(After(s, first), second)
    decreases |first|
  {
    hide Enabled, Apply;
    if first == [] {
      assert first + second == second;
    } else {
      RunAppend(Apply(s, first[0]), first[1..], second);
      RunCons(s, first[0], first[1..] + second);
      assert first + second == [first[0]] + (first[1..] + second);
    }
  }

  /** As long as the listener is polled and there is room, any closed descriptor can become that of a
      new client, which is polled, and nobody else is concerned. */
  lemma AnyClientCanBeAccepted(s: Server, fd: int)
    requires Inv(s) && s.at == AtLoop && Polled(s.poll, s.listener) > 0 && |s.poll| < s.maxlen
    requires fd > 0 && fd !in s.open && fd != s.listener
    ensures Enabled(s, CheckAccept) && Enabled(Apply(s, CheckAccept), FinishAccept(fd))
    ensures var r := Apply(Apply(s, CheckAccept), FinishAccept(fd));
            && r.at == AtLoop && r.live == s.live + {fd} && r.open == s.open + {fd} && r.workers == s.workers
            && forall q :: Polled(r.poll, q) == Polled(s.poll, q) + One(q == fd)
  {
    forall q {
      AddRemoveAreExact(s.poll, s.maxlen, fd, ACCEPT_EVENTS, q);
    }
  }

  /** Any client that is polled can hang up: its descriptor is closed and polled no more. */
  lemma AnyClientCanHangUp(s: Server, i: nat)
    requires Inv(s) && s.at == AtLoop && ClientEntry(s, i)
    ensures Enabled(s, HangUp(i))
    ensures var r, fd := Apply(s, HangUp(i)), s.poll[i].fd;
            && fd !in r.live && fd !in r.open && r.workers == s.workers && r.at == AtLoop
            && forall q :: Polled(r.poll, q) == if q == fd then 0 else Polled(s.poll, q)
  {
    var fd := s.poll[i].fd;
    ClientEntryIsLive(s, i);
    EntryIsPolled(s, i);
    assert Conserved(s, fd);
    forall q {
      AddRemoveAreExact(s.poll, s.maxlen, fd, 0, q);
    }
  }

  /** Any client that is served can be lost: the worker is free again, and the client is not polled,
      but its descriptor stays open. */
  lemma AnyClientCanBeLost(s: Server, w: nat, fd: int)
    requires Inv(s) && Serves(s.workers, w, fd) && fd > 0
    ensures Enabled(s, Lose(w))
    ensures var r := Apply(s, Lose(w));
            && r.workers[w].slot == 0 && Serving(r.workers, fd) == {} && fd !in r.live
            && r.open == s.open && r.poll == s.poll && r.at == s.at && fd in r.open
  {
    ServedIsLive(s, w, fd);
    ServingAfter(s.workers, w, Worker(0, false), fd);
  }

  // The failed accepts of a run for which there was room.
  function FailedAccepts(s: Server, actions: seq<Action>): nat
    requires Runs(s, actions)
    decreases |actions|
  {
    if actions == [] then 0
    else One(actions[0] == AcceptFails && |s.poll| < s.maxlen) + FailedAccepts(Apply(s, actions[0]), actions[1..])
  }

  lemma StepFailedAccepts(s: Server, a: Action)
    requires Inv(s) && Enabled(s, a)
    ensures Polled(Apply(s, a).poll, -1) == Polled(s.poll, -1) + One(a == AcceptFails && |s.poll| < s.maxlen)
  {
    match a
    case FinishAccept(fd) => AddRemoveAreExact(s.poll, s.maxlen, fd, ACCEPT_EVENTS, -1);
    case AcceptFails => AddRemoveAreExact(s.poll, s.maxlen, -1, ACCEPT_EVENTS, -1);
    case PutBack(w) => AddRemoveAreExact(s.poll, s.maxlen, s.workers[w].slot, SERVE_EVENTS, -1);
    case RemoveAssigned => AddRemoveAreExact(s.poll, s.maxlen, s.poll[s.at.i].fd, 0, -1);
    case HangUp(i) => AddRemoveAreExact(s.poll, s.maxlen, s.poll[i].fd, 0, -1);
    case StopListening => AddRemoveAreExact(s.poll, s.maxlen, s.listener, 0, -1);
    case _ =>
  }

  /** Every failed accept takes a slot of the poll array for ever. */
  lemma {:induction false} FailedAcceptsStay(s: Server, actions: seq<Action>)
    requires Inv(s) && Runs(s, actions)
    ensures Polled(After(s, actions).poll, -1) == Polled(s.poll, -1) + FailedAccepts(s, actions)
    decreases |actions|
  {
    if actions != [] {
      hide Inv, Enabled, Apply, Polled;
      StepFailedAccepts(s, actions[0]);
      ActionKeepsInv(s, actions[0]);
      FailedAcceptsStay(Apply(s, actions[0]), actions[1..]);
    }
  }

  lemma StepListener(s: Server, a: Action)
    requires Inv(s) && Enabled(s, a)
    ensures Polled(Apply(s, a).poll, s.listener) ==
            Polled(s.poll, s.listener) - One(a == StopListening && Polled(s.poll, s.listener) > 0)
    ensures Apply(s, a).listener == s.listener
  {
    match a
    case FinishAccept(fd) => AddRemoveAreExact(s.poll, s.maxlen, fd, ACCEPT_EVENTS, s.listener);
    case AcceptFails => AddRemoveAreExact(s.poll, s.maxlen, -1, ACCEPT_EVENTS, s.listener);
    case PutBack(w) => AddRemoveAreExact(s.poll, s.maxlen, s.workers[w].slot, SERVE_EVENTS, s.listener);
    case RemoveAssigned => AddRemoveAreExact(s.poll, s.maxlen, s.poll[s.at.i].fd, 0, s.listener);
    case HangUp(i) => AddRemoveAreExact(s.poll, s.maxlen, s.poll[i].fd, 0, s.listener);
    case StopListening => AddRemoveAreExact(s.poll, s.maxlen, s.listener, 0, s.listener);
    case _ =>
  }

  /** The listener is polled once until the dispatcher stops listening, and never again after that, so
      nobody is accepted any more. */
  lemma {:induction false} ListenerIsPolledUntilStopped(s: Server, actions: seq<Action>)
    requires Inv(s) && Runs(s, actions) && Polled(s.poll, s.listener) <= 1
    ensures Polled(After(s, actions).poll, s.listener) == if StopListening in actions then 0 else Polled(s.poll, s.listener)
    ensures Polled(s.poll, s.listener) == 0 ==> CheckAccept !in actions
    decreases |actions|
  {
    if actions != [] {
      var a, tail := actions[0], actions[1..];
      assert actions == [a] + tail;
      assert a == CheckAccept ==> Polled(s.poll, s.listener) > 0;
      hide Inv, Enabled, Apply, Polled;
      StepListener(s, a);
      ActionKeepsInv(s, a);
      ListenerIsPolledUntilStopped(Apply(s, a), tail);
    }
  }
}
