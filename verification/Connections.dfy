/** The storage and the dispatcher together. To the storage a client is the number of a descriptor,
    and a handler that finds this number in a file takes the client for the one that opened it. But
    the dispatcher closes the descriptor of a client that hangs up without closing its files, and
    `accept` may return the same number to somebody else. Here connections are told apart. */
module Connections {
  import opened Words
  import opened Paths
  import opened Streams
  import opened PollArrays
  import opened Store
  import opened Accounts
  import opened Runs
  import D = Dispatcher

  // `conn` tells which connection, counted in the order of their acceptance, has a descriptor;
  // `opener` which one was the last to open a file.
  datatype System = System(net: D.Server, store: Storage, conn: map<int, nat>, next: nat, opener: map<Path, nat>)

  // A step of the dispatcher or of a worker outside the handlers, or a request that worker w serves.
  datatype Event = Move(a: D.Action) | Ask(w: nat, r: Request)

  ghost predicate Enabled(s: System, e: Event) {
    match e
    case Move(a) => D.Enabled(s.net, a)
    case Ask(w, r) => r.client > 0 && D.Serves(s.net.workers, w, r.client) && Legal(s.store, r)
  }

  ghost function Opened(s: System, r: Request): map<Path, nat> {
    if r.Open? && r.client in s.conn && Step(s.store, r).ok then s.opener[r.path := s.conn[r.client]] else s.opener
  }

  ghost function Apply(s: System, e: Event): System
    requires Enabled(s, e)
  {
    match e
    case Move(a) =>
      var t := s.(net := D.Apply(s.net, a));
      if a.FinishAccept? then t.(conn := s.conn[a.fd := s.next], next := s.next + 1)
      else if a.HangUp? then t.(conn := s.conn - {s.net.poll[a.i].fd})
      else t
    case Ask(w, r) => s.(store := Step(s.store, r).store, opener := Opened(s, r))
  }

  ghost predicate RunOf(s: System, events: seq<Event>)
    decreases |events|
  {
    events != [] ==> Enabled(s, events[0]) && RunOf(Apply(s, events[0]), events[1..])
  }

  ghost function End(s: System, events: seq<Event>): System
    requires RunOf(s, events)
    decreases |events|
  {
    if events == [] then s else End(Apply(s, events[0]), events[1..])
  }

  // ------------------------------------------------------------------------------ invariant

  // Who opened a file that is held is known.
  ghost predicate OpenersKnown(s: System) {
    forall c: nat, p | c > 0 && Holds(s.store, c, p) :: p in s.opener && s.opener[p] < s.next
  }

  ghost predicate Sound(s: System) {
    && Inv(s.store) && D.Inv(s.net) && NoZeroOwner(s.store)
    && s.conn.Keys == s.net.open - {s.net.listener}
    && (forall fd | fd in s.conn :: fd > 0 && s.conn[fd] < s.next)
    && OpenersKnown(s)
  }

  ghost predicate Initial(s: System) {
    && D.Initial(s.net) && s.net.open == {s.net.listener}
    && s.store.files == map[] && Inv(s.store)
    && s.conn == map[] && s.opener == map[]
  }

  // What the handlers rely on: a file with the number of a connected descriptor was opened by the
  // connection that has the descriptor now.
  ghost predicate Proper(s: System) {
    forall fd: nat, p | fd in s.conn && Holds(s.store, fd, p) :: p in s.opener && s.opener[p] == s.conn[fd]
  }

  // A client that is served is connected.
  lemma ServedIsConnected(s: System, w: nat, r: Request)
    requires Sound(s) && Enabled(s, Ask(w, r))
    ensures r.client in s.conn
  {
    D.ServedIsLive(s.net, w, r.client);
  }

  // What a request does to the holders of files and to what is known of them.
  lemma AskOwners(s: System, r: Request, c: nat, p: Path)
    requires Inv(s.store) && Legal(s.store, r) && r.client > 0 && r.client in s.conn && c > 0
    requires Holds(Step(s.store, r).store, c, p)
    ensures Holds(s.store, c, p) && p in s.opener ==> p in Opened(s, r) && Opened(s, r)[p] == s.opener[p]
    ensures !Holds(s.store, c, p) ==> c == r.client && p in Opened(s, r) && Opened(s, r)[p] == s.conn[c]
  {
    hide Inv, Legal;
    if !Holds(s.store, c, p) {
      OnlyOpenMakesAHolder(s.store, r, c, p);
    } else if r.Open? && r.path == p {
      OpenSucceedsIff(s.store, r.client, p, r.create, r.lock);
    }
  }

  lemma AskKeepsSound(s: System, w: nat, r: Request)
    requires Sound(s) && Enabled(s, Ask(w, r))
    ensures Sound(Apply(s, Ask(w, r)))
  {
    var t := Apply(s, Ask(w, r));
    ServedIsConnected(s, w, r);
    StepKeepsInv(s.store, r);
    NobodyBecomesZero(s.store, r);
    hide Inv, D.Inv, Legal, Step, Opened;
    forall c: nat, p | c > 0 && Holds(t.store, c, p) ensures p in t.opener && t.opener[p] < t.next {
      AskOwners(s, r, c, p);
    }
  }

  lemma MoveKeepsSound(s: System, a: D.Action)
    requires Sound(s) && D.Enabled(s.net, a)
    ensures Sound(Apply(s, Move(a)))
  {
    hide Inv;
    D.ActionKeepsInv(s.net, a);
    hide D.Inv;
  }

  // ------------------------------------------------------------------------------ the theorem

  // The number of a closed descriptor is given out again while it still stands in a file.
  ghost predicate Reuses(s: System, e: Event) {
    e.Move? && e.a.FinishAccept? && e.a.fd > 0 && exists p :: Holds(s.store, e.a.fd, p)
  }

  lemma AskKeepsProper(s: System, w: nat, r: Request)
    requires Sound(s) && Proper(s) && Enabled(s, Ask(w, r))
    ensures Proper(Apply(s, Ask(w, r)))
  {
    var t := Apply(s, Ask(w, r));
    ServedIsConnected(s, w, r);
    hide Inv, D.Inv, Legal, Step, Opened;
    forall fd: nat, p | fd in t.conn && Holds(t.store, fd, p) ensures p in t.opener && t.opener[p] == t.conn[fd] {
      AskOwners(s, r, fd, p);
    }
  }

  /** One step. What the handlers rely on is kept exactly by the steps that do not give out a number
      which still stands in a file. */
  lemma StepIsProperIff(s: System, e: Event)
    requires Sound(s) && Proper(s) && Enabled(s, e)
    ensures Proper(Apply(s, e)) <==> !Reuses(s, e)
  {
    if e.Ask? {
      AskKeepsProper(s, e.w, e.r);
    } else {
      hide Inv, D.Inv;
      if Reuses(s, e) {
        var fd: nat := e.a.fd;
        var p :| Holds(s.store, fd, p);
        assert s.opener[p] < s.next == Apply(s, e).conn[fd];
      }
    }
  }

  ghost predicate ProperThroughout(s: System, events: seq<Event>)
    requires RunOf(s, events)
    decreases |events|
  {
    Proper(s) && (events != [] ==> ProperThroughout(Apply(s, events[0]), events[1..]))
  }

  ghost predicate NeverReuses(s: System, events: seq<Event>)
    requires RunOf(s, events)
    decreases |events|
  {
    events != [] ==> !Reuses(s, events[0]) && NeverReuses(Apply(s, events[0]), events[1..])
  }

  lemma StepKeepsSound(s: System, e: Event)
    requires Sound(s) && Enabled(s, e)
    ensures Sound(Apply(s, e))
  {
    if e.Ask? {
      AskKeepsSound(s, e.w, e.r);
    } else {
      MoveKeepsSound(s, e.a);
    }
  }

  lemma {:induction false} RunKeepsSound(s: System, events: seq<Event>)
    requires Sound(s) && RunOf(s, events)
    ensures Sound(End(s, events))
    decreases |events|
  {
    if events != [] {
      StepKeepsSound(s, events[0]);
      RunKeepsSound(Apply(s, events[0]), events[1..]);
    }
  }

  lemma {:induction false} RunIsProperIff(s: System, events: seq<Event>)
    requires Sound(s) && Proper(s) && RunOf(s, events)
    ensures ProperThroughout(s, events) <==> NeverReuses(s, events)
    decreases |events|
  {
    hide Sound, Proper, Reuses;
    if events != [] {
      StepKeepsSound(s, events[0]);
      StepIsProperIff(s, events[0]);
      if !Reuses(s, events[0]) {
        RunIsProperIff(Apply(s, events[0]), events[1..]);
      } else {
        NotProperAtStart(Apply(s, events[0]), events[1..]);
      }
    }
  }

  lemma NotProperAtStart(s: System, events: seq<Event>)
    requires RunOf(s, events) && !Proper(s)
    ensures !ProperThroughout(s, events)
  {
  }

  lemma InitialIsSound(s: System)
    requires Initial(s)
    ensures Sound(s) && Proper(s)
  {
    D.InitialIsFine(s.net);
  }

  /** Ownership by connection, over every run of the dispatcher, the workers and the handlers from the
      start: at every moment a file with the number of a connected descriptor was opened by the very
      connection that has the descriptor, if and only if accept never returns a number that still
      stands in a file. */
  lemma OwnershipIsPerConnectionIff(s: System, events: seq<Event>)
    requires Initial(s) && RunOf(s, events)
    ensures ProperThroughout(s, events) <==> NeverReuses(s, events)
  {
    InitialIsSound(s);
    RunIsProperIff(s, events);
  }

  // Until then the ownership test of the handlers is passed by the opener only.
  lemma OnlyTheOpenerIsServed(s: System, w: nat, r: Request)
    requires Sound(s) && Proper(s) && Enabled(s, Ask(w, r)) && Step(s.store, r).ok
    requires r.Read? || r.Close? || r.Write? || (r.Remove? && r.path in s.store.files)
    ensures r.client in s.conn && r.path in s.opener && s.opener[r.path] == s.conn[r.client]
  {
    ServedIsConnected(s, w, r);
    if r.Write? {
      WriteIsSeen(s.store, r);
    }
    assert Holds(s.store, r.client, r.path);
  }

  /** Afterwards it is passed by a stranger: whoever gets the number of a descriptor that still stands
      in a file may read and remove the file, and did not open it. */
  lemma ReuseSteals(s: System, fd: nat, p: Path)
    requires Sound(s) && Enabled(s, Move(D.FinishAccept(fd))) && Holds(s.store, fd, p)
    ensures var t := Apply(s, Move(D.FinishAccept(fd)));
            && Step(t.store, Read(fd, p)).ok && Step(t.store, Remove(fd, p)).ok
            && p in t.opener && t.opener[p] != t.conn[fd]
  {
  }

  /** A file whose opener hung up stays as it is for as long as the number is not given out again:
      nobody can open, change, remove or evict it, and its space is lost. */
  lemma {:induction false} OrphanStays(s: System, events: seq<Event>, fd: nat, p: Path)
    requires Sound(s) && RunOf(s, events) && fd > 0 && Holds(s.store, fd, p) && fd !in s.conn
    requires forall e | e in events :: e != Move(D.FinishAccept(fd))
    ensures var t := End(s, events);
            fd !in t.conn && Holds(t.store, fd, p) && t.store.files[p].data == s.store.files[p].data
    decreases |events|
  {
    if events != [] {
      var e := events[0];
      assert e in events && forall x | x in events[1..] :: x in events;
      OrphanStaysAStep(s, e, fd, p);
      StepKeepsSound(s, e);
      hide Sound, Holds, Enabled;
      OrphanStays(Apply(s, e), events[1..], fd, p);
    }
  }

  lemma OrphanStaysAStep(s: System, e: Event, fd: nat, p: Path)
    requires Sound(s) && Enabled(s, e) && fd > 0 && Holds(s.store, fd, p) && fd !in s.conn
    requires e != Move(D.FinishAccept(fd))
    ensures var t := Apply(s, e);
            fd !in t.conn && Holds(t.store, fd, p) && t.store.files[p].data == s.store.files[p].data
  {
    if e.Ask? {
      ServedIsConnected(s, e.w, e.r);
      StepRespectsHolder(s.store, e.r, fd, p);
    }
  }

  // --------------------------------------------------------------------------- a stealing run

  lemma RunCons(s: System, e: Event, rest: seq<Event>)
    requires Enabled(s, e) && RunOf(Apply(s, e), rest)
    ensures RunOf(s, [e] + rest) && End(s, [e] + rest) == End(Apply(s, e), rest)
    ensures NeverReuses(s, [e] + rest) <==> !Reuses(s, e) && NeverReuses(Apply(s, e), rest)
  {
    assert ([e] + rest)[0] == e && ([e] + rest)[1..] == rest;
  }

  // A run from s to t, in which numbers are reused or not.
  ghost predicate Leads(s: System, events: seq<Event>, t: System, clean: bool) {
    RunOf(s, events) && End(s, events) == t && (NeverReuses(s, events) <==> clean)
  }

  // Only the listener is polled, and nobody is served.
  ghost predicate Quiet(s: System) {
    && s.net.at == D.AtLoop && |s.net.poll| == 1 && s.net.poll[0].fd == s.net.listener && s.net.maxlen >= 2
    && |s.net.workers| > 0 && s.net.workers[0] == D.Worker(0, false)
  }

  // Besides the listener one client is polled, and nobody is served.
  ghost predicate OneClient(s: System, fd: nat) {
    && s.net.at == D.AtLoop && |s.net.poll| == 2 && s.net.poll[0].fd == s.net.listener && s.net.poll[1].fd == fd
    && fd != s.net.listener && s.net.maxlen >= 2
    && |s.net.workers| > 0 && s.net.workers[0] == D.Worker(0, false)
  }

  // The first worker serves the client, and only the listener is polled.
  ghost predicate Served(s: System, fd: nat) {
    && s.net.at == D.AtLoop && |s.net.poll| == 1 && s.net.poll[0].fd == s.net.listener && fd != s.net.listener
    && s.net.maxlen >= 2 && |s.net.workers| > 0 && s.net.workers[0] == D.Worker(fd, false)
  }

  // Only descriptors have changed places.
  ghost predicate SameBut(s: System, t: System) {
    t.store == s.store && t.opener == s.opener && t.next >= s.next && t.net.listener == s.net.listener
  }

  lemma SecondOut(poll: seq<PollFd>)
    requires |poll| == 2 && poll[0].fd != poll[1].fd
    ensures |PuRemove(poll, poll[1].fd)| == 1 && PuRemove(poll, poll[1].fd)[0] == poll[0]
  {
  }

  lemma Accepting(s: System, fd: nat) returns (t: System, events: seq<Event>)
    requires Quiet(s) && fd > 0 && fd !in s.net.open && fd != s.net.listener
    ensures Leads(s, events, t, forall p :: !Holds(s.store, fd, p)) && OneClient(t, fd) && SameBut(s, t)
    ensures t.conn == s.conn[fd := s.next] && t.next > s.next && t.net.open == s.net.open + {fd}
  {
    var e1, e2 := Move(D.CheckAccept), Move(D.FinishAccept(fd));
    PolledIffPresent(s.net.poll, s.net.listener);
    var s1 := Apply(s, e1);
    t := Apply(s1, e2);
    events := [e1] + ([e2] + []);
    RunCons(s1, e2, []);
    RunCons(s, e1, [e2] + []);
  }

  lemma HandingOver(s: System, fd: nat) returns (t: System, events: seq<Event>)
    requires OneClient(s, fd) && fd > 0
    ensures Leads(s, events, t, true) && Served(t, fd) && SameBut(s, t)
    ensures t.conn == s.conn && t.net.open == s.net.open
  {
    var e1, e2 := Move(D.Assign(1, 0)), Move(D.RemoveAssigned);
    var s1 := Apply(s, e1);
    SecondOut(s1.net.poll);
    t := Apply(s1, e2);
    events := [e1] + ([e2] + []);
    RunCons(s1, e2, []);
    RunCons(s, e1, [e2] + []);
  }

  // The worker is done with its client, which hangs up.
  lemma Leaving(s: System, fd: nat) returns (t: System, events: seq<Event>)
    requires Served(s, fd) && fd > 0
    ensures Leads(s, events, t, true) && Quiet(t) && SameBut(s, t)
    ensures t.conn == s.conn - {fd} && t.net.open == s.net.open - {fd}
  {
    var e1, e2, e3 := Move(D.PutBack(0)), Move(D.ClearSlot(0)), Move(D.HangUp(1));
    var s1 := Apply(s, e1);
    var s2 := Apply(s1, e2);
    SecondOut(s2.net.poll);
    t := Apply(s2, e3);
    events := [e1] + ([e2] + ([e3] + []));
    RunCons(s2, e3, []);
    RunCons(s1, e2, [e3] + []);
    RunCons(s, e1, [e2] + ([e3] + []));
  }

  lemma {:induction false} RunAppend(s: System, first: seq<Event>, second: seq<Event>)
    requires RunOf(s, first) && RunOf(End(s, first), second)
    ensures RunOf(s, first + second) && End(s, first + second) == End(End(s, first), second)
    ensures NeverReuses(s, first + second) <==> NeverReuses(s, first) && NeverReuses(End(s, first), second)
    decreases |first|
  {
    hide Apply, Enabled, Reuses;
    if first == [] {
      assert first + second == second;
    } else {
      var e, tail := first[0], first[1..];
      RunAppend(Apply(s, e), tail, second);
      assert first == [e] + tail && first + second == [e] + (tail + second);
      RunCons(s, e, tail);
      RunCons(s, e, tail + second);
    }
  }

  lemma LeadsOn(s: System, first: seq<Event>, t: System, second: seq<Event>, u: System, clean: bool)
    requires Leads(s, first, t, true) && Leads(t, second, u, clean)
    ensures Leads(s, first + second, u, clean)
  {
    hide RunOf, End, NeverReuses;
    RunAppend(s, first, second);
  }

  // The client that is served creates a file.
  lemma Creating(s: System, fd: nat, p: Path) returns (t: System, events: seq<Event>)
    requires Served(s, fd) && fd > 0 && fd in s.conn && p !in s.store.files
    requires Inv(s.store) && |s.store.files| < s.store.maxFiles && Bytes(s.store.files) < s.store.maxBytes
    ensures Leads(s, events, t, true) && Served(t, fd) && t.conn == s.conn && t.next >= s.next && t.net.open == s.net.open
    ensures t.net.listener == s.net.listener && Holds(t.store, fd, p) && p in t.opener && t.opener[p] == s.conn[fd]
  {
    var r := Open(fd, p, true, false);
    CreateSucceedsIff(s.store, fd, p, true, false);
    t := Apply(s, Ask(0, r));
    events := [Ask(0, r)] + [];
    RunCons(s, Ask(0, r), []);
  }

  /** This does happen. One client creates a file and hangs up; the next one is given the same
      descriptor, and the file is its own. */
  lemma NumbersAreReused(s: System, fd: nat, p: Path) returns (events: seq<Event>)
    requires Initial(s) && Quiet(s) && 0 < fd != s.net.listener && s.store.maxFiles > 0 && s.store.maxBytes > 0
    ensures RunOf(s, events) && !NeverReuses(s, events)
    ensures var t := End(s, events); Holds(t.store, fd, p) && fd in t.conn && p in t.opener && t.opener[p] < t.conn[fd]
  {
    hide RunOf, End, NeverReuses, Leads, Served, OneClient, Quiet, Inv, D.Initial, Reuses;
    assert fd !in s.net.open && Bytes(s.store.files) == 0 && Inv(s.store);
    hide Initial, Bytes;
    var s1, es1 := Accepting(s, fd);
    var s2, es2 := HandingOver(s1, fd);
    var s3, es3 := Creating(s2, fd, p);
    var s4, es4 := Leaving(s3, fd);
    var s5, es5 := Accepting(s4, fd);
    LeadsOn(s3, es4, s4, es5, s5, false);
    LeadsOn(s2, es3, s3, es4 + es5, s5, false);
    LeadsOn(s1, es2, s2, es3 + (es4 + es5), s5, false);
    LeadsOn(s, es1, s1, es2 + (es3 + (es4 + es5)), s5, false);
    events := es1 + (es2 + (es3 + (es4 + es5)));
    LeadsMeans(s, events, s5, false);
  }

  lemma LeadsMeans(s: System, events: seq<Event>, t: System, clean: bool)
    requires Leads(s, events, t, clean)
    ensures RunOf(s, events) && End(s, events) == t && (NeverReuses(s, events) <==> clean)
  {
  }
}
