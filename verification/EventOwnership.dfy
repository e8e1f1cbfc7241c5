/**
Who may act on a connection in proactor mode. A connection is registered for one event at a time: delivering
the event disarms it, and whoever is done with it arms it again. So a connection is armed, or held by the event
loop, or in the request queue, or with a worker.

A descriptor that is closed while its connection is in the queue or with a worker can be accepted again at once.
*/
module EventOwnership {
  import opened Threads

  datatype Worker = Idle | Busy(fd: int)

  /**
  ready are the descriptors whose event epoll_wait has returned and the event loop has not dealt with yet;
  dropped are those whose request append_p refused because the queue was full.
  */
  datatype Server = Server(open: set<int>, armed: set<int>, ready: set<int>, queue: seq<int>,
                           workers: seq<Worker>, dropped: set<int>)

  datatype Event =
    | Accept(fd: int)
    | Deliver(fd: int)
    | Rearm(fd: int)
    | Enqueue(fd: int)
    | Close(fd: int)
    | Take(w: nat)
    | Finish(w: nat)
    | WorkerClose(w: nat)

  function Initial(threads: nat): Server {
    Server({}, {}, {}, [], seq(threads, t => Idle), {})
  }

  predicate Enabled(s: Server, e: Event) {
    match e
    case Accept(fd) => fd !in s.open
    case Deliver(fd) => fd in s.armed
    case Rearm(fd) => fd in s.ready
    case Enqueue(fd) => fd in s.ready
    case Close(fd) => fd in s.open
    case Take(w) => w < |s.workers| && s.workers[w].Idle? && s.queue != []
    case Finish(w) => w < |s.workers| && s.workers[w].Busy?
    case WorkerClose(w) => w < |s.workers| && s.workers[w].Busy? && s.workers[w].fd in s.open
  }

  /** The descriptor is closed, and no longer registered. */
  function Closed(s: Server, fd: int): Server {
    s.(open := s.open - {fd}, armed := s.armed - {fd}, ready := s.ready - {fd}, dropped := s.dropped - {fd})
  }

  /** modfd has no effect on a descriptor that is not registered. */
  function Step(s: Server, e: Event, maxRequests: nat): Server
    requires Enabled(s, e)
  {
    match e
    case Accept(fd) => s.(open := s.open + {fd}, armed := s.armed + {fd})
    case Deliver(fd) => s.(armed := s.armed - {fd}, ready := s.ready + {fd})
    case Rearm(fd) => s.(ready := s.ready - {fd}, armed := s.armed + {fd})
    case Enqueue(fd) =>
      if |s.queue| >= maxRequests then s.(ready := s.ready - {fd}, dropped := s.dropped + {fd})
      else s.(ready := s.ready - {fd}, queue := s.queue + [fd])
    case Close(fd) => Closed(s, fd)
    case Take(w) => s.(queue := s.queue[1..], workers := s.workers[w := Busy(s.queue[0])])
    case Finish(w) =>
      var fd := s.workers[w].fd;
      s.(workers := s.workers[w := Idle], armed := if fd in s.open then s.armed + {fd} else s.armed)
    case WorkerClose(w) => Closed(s, s.workers[w].fd)
  }

  function On(fd: int): Worker -> bool {
    w => w == Busy(fd)
  }

  function One(b: bool): nat {
    if b then 1 else 0
  }

  /** How many times a connection waits in the queue or is with a worker. */
  function Flights(s: Server, fd: int): nat {
    multiset(s.queue)[fd] + Count(s.workers, On(fd))
  }

  /** In how many places a connection is. */
  function Holders(s: Server, fd: int): nat {
    One(fd in s.armed) + One(fd in s.ready) + Flights(s, fd)
  }

  /** No connection is in two places, and only open ones are registered. */
  ghost predicate AtMostOne(s: Server) {
    s.armed <= s.open && s.ready <= s.open && forall fd :: Holders(s, fd) <= 1
  }

  /** An open connection is in exactly one place, or was dropped; any other is in none. */
  ghost predicate ExactlyOne(s: Server) {
    && s.armed <= s.open && s.ready <= s.open && s.dropped <= s.open
    && forall fd :: Holders(s, fd) + One(fd in s.dropped) == One(fd in s.open)
  }

  // ---------- One step ----------

  lemma FlightsAfter(s: Server, e: Event, maxRequests: nat, fd: int)
    requires Enabled(s, e)
    ensures Flights(Step(s, e, maxRequests), fd) ==
            match e
            case Enqueue(f) => Flights(s, fd) + One(fd == f && |s.queue| < maxRequests)
            case Finish(w) => Flights(s, fd) - One(s.workers[w].fd == fd)
            case _ => Flights(s, fd)
    ensures e.Finish? && s.workers[e.w].fd == fd ==> Flights(s, fd) >= 1
  {
    match e
    case Take(w) =>
      CountMoved(s.workers, w, Busy(s.queue[0]), On(fd));
      assert s.queue == [s.queue[0]] + s.queue[1..];
    case Finish(w) =>
      CountMoved(s.workers, w, Idle, On(fd));
      if s.workers[w].fd == fd {
        CountedOne(s.workers, w, On(fd));
      }
    case _ =>
  }

  /** A step breaks the rule exactly if it accepts a descriptor whose former connection is still in flight. */
  lemma BrokenExactlyByReuse(s: Server, e: Event, maxRequests: nat)
    requires AtMostOne(s) && Enabled(s, e)
    ensures AtMostOne(Step(s, e, maxRequests)) <==> !(e.Accept? && Flights(s, e.fd) > 0)
  {
    hide Flights;
    var r := Step(s, e, maxRequests);
    forall fd
      ensures Holders(r, fd) <= 1 || (e.Accept? && fd == e.fd && Flights(s, fd) > 0)
    {
      FlightsAfter(s, e, maxRequests, fd);
      assert Holders(s, fd) <= 1;
    }
    if e.Accept? {
      FlightsAfter(s, e, maxRequests, e.fd);
      assert Holders(r, e.fd) == 1 + Flights(s, e.fd);
    }
  }

  /** A connection is closed only while the event loop holds it, or while it is armed or was dropped. */
  predicate ClosesOwn(s: Server, e: Event) {
    && (e.Close? ==> Flights(s, e.fd) == 0)
    && !e.WorkerClose?
  }

  lemma OwnedStep(s: Server, e: Event, maxRequests: nat)
    requires ExactlyOne(s) && Enabled(s, e) && ClosesOwn(s, e)
    ensures ExactlyOne(Step(s, e, maxRequests))
  {
    hide Flights;
    var r := Step(s, e, maxRequests);
    forall fd
      ensures Holders(r, fd) + One(fd in r.dropped) == One(fd in r.open)
    {
      FlightsAfter(s, e, maxRequests, fd);
      assert Holders(s, fd) + One(fd in s.dropped) == One(fd in s.open);
    }
  }

  // ---------- Whole runs ----------

  ghost predicate Runs(s: Server, events: seq<Event>, maxRequests: nat)
    decreases |events|
  {
    events != [] ==> Enabled(s, events[0]) && Runs(Step(s, events[0], maxRequests), events[1..], maxRequests)
  }

  /** A run in which every close is of a connection that is not in flight. */
  ghost predicate OwnedRun(s: Server, events: seq<Event>, maxRequests: nat)
    requires Runs(s, events, maxRequests)
    decreases |events|
  {
    events != [] ==> ClosesOwn(s, events[0]) && OwnedRun(Step(s, events[0], maxRequests), events[1..], maxRequests)
  }

  ghost function After(s: Server, events: seq<Event>, maxRequests: nat): Server
    requires Runs(s, events, maxRequests)
    decreases |events|
  {
    if events == [] then s else After(Step(s, events[0], maxRequests), events[1..], maxRequests)
  }

  lemma {:induction false} OwnedRunKeeps(s: Server, events: seq<Event>, maxRequests: nat)
    requires ExactlyOne(s) && Runs(s, events, maxRequests) && OwnedRun(s, events, maxRequests)
    ensures ExactlyOne(After(s, events, maxRequests))
    decreases |events|
  {
    hide ExactlyOne;
    if events != [] {
      OwnedStep(s, events[0], maxRequests);
      OwnedRunKeeps(Step(s, events[0], maxRequests), events[1..], maxRequests);
    }
  }

  /** At every point of the run no connection is in two places. */
  ghost predicate AlwaysAtMostOne(s: Server, events: seq<Event>, maxRequests: nat)
    requires Runs(s, events, maxRequests)
    decreases |events|
  {
    AtMostOne(s) && (events != [] ==> AlwaysAtMostOne(Step(s, events[0], maxRequests), events[1..], maxRequests))
  }

  /** No descriptor is accepted while its former connection is in flight. */
  ghost predicate ReusesNone(s: Server, events: seq<Event>, maxRequests: nat)
    requires Runs(s, events, maxRequests)
    decreases |events|
  {
    events != [] ==>
      && !(events[0].Accept? && Flights(s, events[0].fd) > 0)
      && ReusesNone(Step(s, events[0], maxRequests), events[1..], maxRequests)
  }

  /**
  For every run, with closes by the timer and by workers anywhere in it: at every point no connection is in two
  places if and only if no accept reuses a descriptor in flight.
  */
  lemma {:induction false} OneAsLongAsNotReused(s: Server, events: seq<Event>, maxRequests: nat)
    requires AtMostOne(s) && Runs(s, events, maxRequests)
    ensures AlwaysAtMostOne(s, events, maxRequests) <==> ReusesNone(s, events, maxRequests)
    decreases |events|
  {
    hide AtMostOne, Flights, Step;
    if events != [] {
      var r := Step(s, events[0], maxRequests);
      BrokenExactlyByReuse(s, events[0], maxRequests);
      if AtMostOne(r) {
        OneAsLongAsNotReused(r, events[1..], maxRequests);
      }
    }
  }

  lemma {:induction false} BusyOnce(workers: seq<Worker>, v: nat, w: nat, fd: int)
    requires v < w < |workers| && workers[v] == workers[w] == Busy(fd)
    ensures Count(workers, On(fd)) >= 2
  {
    if v > 0 {
      BusyOnce(workers[1..], v - 1, w - 1, fd);
    } else {
      assert workers[1..][w - 1] == Busy(fd);
      CountedOne(workers[1..], w - 1, On(fd));
    }
  }

  lemma QueuedOnce(queue: seq<int>, i: nat, j: nat)
    requires i < j < |queue| && queue[i] == queue[j]
    ensures multiset(queue)[queue[i]] >= 2
  {
    assert queue == queue[..j] + queue[j..];
    assert queue[i] in queue[..j] && queue[j] in queue[j..];
  }

  /** No two workers are in process() for one connection, and the queue does not hold it twice. */
  lemma OneWorkerEach(s: Server)
    requires AtMostOne(s)
    ensures forall v, w :: 0 <= v < w < |s.workers| && s.workers[v].Busy? ==> s.workers[v] != s.workers[w]
    ensures forall i, j :: 0 <= i < j < |s.queue| ==> s.queue[i] != s.queue[j]
    ensures forall w :: 0 <= w < |s.workers| && s.workers[w].Busy? ==> s.workers[w].fd !in s.queue
  {
    forall v, w | 0 <= v < w < |s.workers| && s.workers[v].Busy?
      ensures s.workers[v] != s.workers[w]
    {
      assert Holders(s, s.workers[v].fd) <= 1;
      if s.workers[v] == s.workers[w] {
        BusyOnce(s.workers, v, w, s.workers[v].fd);
      }
    }
    forall i, j | 0 <= i < j < |s.queue|
      ensures s.queue[i] != s.queue[j]
    {
      assert Holders(s, s.queue[i]) <= 1;
      if s.queue[i] == s.queue[j] {
        QueuedOnce(s.queue, i, j);
      }
    }
    forall w | 0 <= w < |s.workers| && s.workers[w].Busy?
      ensures s.workers[w].fd !in s.queue
    {
      CountedOne(s.workers, w, On(s.workers[w].fd));
      assert Holders(s, s.workers[w].fd) <= 1;
    }
  }

  lemma ExactlyIsAtMost(s: Server)
    requires ExactlyOne(s)
    ensures AtMostOne(s)
  {
    forall fd
      ensures Holders(s, fd) <= 1
    {
      assert Holders(s, fd) + One(fd in s.dropped) == One(fd in s.open);
    }
  }

  /**
  In every run in which connections are closed only while the event loop may, each open connection that was not
  dropped is in exactly one place, and no two workers have the same one.
  */
  lemma OneOwner(threads: nat, events: seq<Event>, maxRequests: nat)
    requires Runs(Initial(threads), events, maxRequests) && OwnedRun(Initial(threads), events, maxRequests)
    ensures var s := After(Initial(threads), events, maxRequests);
            && ExactlyOne(s) && AtMostOne(s)
            && forall v, w :: 0 <= v < w < |s.workers| && s.workers[v].Busy? ==> s.workers[v] != s.workers[w]
  {
    var s := Initial(threads);
    forall fd
      ensures Holders(s, fd) == 0
    {
      CountsNone(s.workers, On(fd));
    }
    OwnedRunKeeps(s, events, maxRequests);
    ExactlyIsAtMost(After(s, events, maxRequests));
    OneWorkerEach(After(s, events, maxRequests));
  }

  // ---------- The order of the queue ----------

  /** The connections that a run lets into the queue, in order. */
  ghost function Queued(s: Server, events: seq<Event>, maxRequests: nat): seq<int>
    requires Runs(s, events, maxRequests)
    decreases |events|
  {
    if events == [] then []
    else
      (if events[0].Enqueue? && |s.queue| < maxRequests then [events[0].fd] else [])
      + Queued(Step(s, events[0], maxRequests), events[1..], maxRequests)
  }

  /** The connections that workers are busy with when they have taken one, in the order of taking. */
  ghost function Taken(s: Server, events: seq<Event>, maxRequests: nat): seq<int>
    requires Runs(s, events, maxRequests)
    decreases |events|
  {
    if events == [] then []
    else
      (if events[0].Take? then [Step(s, events[0], maxRequests).workers[events[0].w].fd] else [])
      + Taken(Step(s, events[0], maxRequests), events[1..], maxRequests)
  }

  lemma QueueStep(s: Server, e: Event, maxRequests: nat)
    requires Enabled(s, e)
    ensures var r := Step(s, e, maxRequests);
            var joining := if e.Enqueue? && |s.queue| < maxRequests then [e.fd] else [];
            && (e.Take? ==> e.w < |r.workers| && r.workers[e.w].Busy?)
            && s.queue + joining == (if e.Take? then [r.workers[e.w].fd] else []) + r.queue
  {
  }

  /** In every run, workers take the connections in the order in which they came into the queue. */
  lemma {:induction false} TakenInOrder(s: Server, events: seq<Event>, maxRequests: nat)
    requires Runs(s, events, maxRequests)
    ensures s.queue + Queued(s, events, maxRequests) ==
            Taken(s, events, maxRequests) + After(s, events, maxRequests).queue
    decreases |events|
  {
    hide Step, Enabled;
    if events != [] {
      var e, rest := events[0], events[1..];
      var r := Step(s, e, maxRequests);
      QueueStep(s, e, maxRequests);
      TakenInOrder(r, rest, maxRequests);
      var joining := if e.Enqueue? && |s.queue| < maxRequests then [e.fd] else [];
      var took := if e.Take? then [r.workers[e.w].fd] else [];
      Regrouped(s.queue, joining, took, r.queue, Queued(r, rest, maxRequests), Taken(r, rest, maxRequests),
                After(r, rest, maxRequests).queue);
    }
  }

  lemma Regrouped(q: seq<int>, a: seq<int>, b: seq<int>, q': seq<int>, c: seq<int>, d: seq<int>, last: seq<int>)
    requires q + a == b + q' && q' + c == d + last
    ensures q + (a + c) == (b + d) + last
  {
    assert q + (a + c) == (q + a) + c == b + (q' + c);
    assert b + (d + last) == (b + d) + last;
  }

  // ---------- Which connections are dropped ----------

  /** The step closes the connection, by the event loop, the timer or a worker. */
  predicate Closes(s: Server, e: Event, fd: int) {
    match e
    case Close(f) => f == fd
    case WorkerClose(w) => w < |s.workers| && s.workers[w] == Busy(fd)
    case _ => false
  }

  lemma DroppedStep(s: Server, e: Event, maxRequests: nat, fd: int)
    requires Enabled(s, e)
    ensures fd in Step(s, e, maxRequests).dropped <==>
            (e == Enqueue(fd) && |s.queue| >= maxRequests) || (fd in s.dropped && !Closes(s, e, fd))
  {
  }

  /** Event k offers the connection to a full queue. */
  ghost predicate RefusedAt(s: Server, events: seq<Event>, maxRequests: nat, fd: int, k: int) {
    && 0 <= k < |events| && events[k] == Enqueue(fd)
    && Runs(s, events[..k], maxRequests) && |After(s, events[..k], maxRequests).queue| >= maxRequests
  }

  ghost predicate ClosedAt(s: Server, events: seq<Event>, maxRequests: nat, fd: int, k: int) {
    && 0 <= k < |events|
    && Runs(s, events[..k], maxRequests) && Closes(After(s, events[..k], maxRequests), events[k], fd)
  }

  /** The last thing that happened to the connection, of a refusal and a close, is a refusal. */
  ghost predicate Lost(s: Server, events: seq<Event>, maxRequests: nat, fd: int) {
    exists k :: RefusedAt(s, events, maxRequests, fd, k)
                && forall j :: k < j < |events| ==> !ClosedAt(s, events, maxRequests, fd, j)
  }

  lemma {:induction false} RunOfLast(s: Server, events: seq<Event>, e: Event, maxRequests: nat)
    requires Runs(s, events + [e], maxRequests)
    ensures Runs(s, events, maxRequests) && Enabled(After(s, events, maxRequests), e)
    ensures After(s, events + [e], maxRequests) == Step(After(s, events, maxRequests), e, maxRequests)
    decreases |events|
  {
    hide Step, Enabled;
    if events == [] {
      assert (events + [e])[1..] == [];
    } else {
      assert (events + [e])[1..] == events[1..] + [e];
      RunOfLast(Step(s, events[0], maxRequests), events[1..], e, maxRequests);
    }
  }

  lemma SameBefore(s: Server, events: seq<Event>, e: Event, maxRequests: nat, fd: int, k: int)
    requires 0 <= k < |events|
    ensures RefusedAt(s, events + [e], maxRequests, fd, k) == RefusedAt(s, events, maxRequests, fd, k)
    ensures ClosedAt(s, events + [e], maxRequests, fd, k) == ClosedAt(s, events, maxRequests, fd, k)
  {
    assert (events + [e])[..k] == events[..k];
  }

  lemma LostLast(s: Server, events: seq<Event>, e: Event, maxRequests: nat, fd: int)
    requires Runs(s, events, maxRequests)
    ensures var t := After(s, events, maxRequests);
            Lost(s, events + [e], maxRequests, fd) <==>
            (e == Enqueue(fd) && |t.queue| >= maxRequests) || (Lost(s, events, maxRequests, fd) && !Closes(t, e, fd))
  {
    hide Closes, RefusedAt, ClosedAt;
    var all, n := events + [e], |events|;
    LastAt(s, events, e, maxRequests, fd);
    forall k | 0 <= k < n
      ensures RefusedAt(s, all, maxRequests, fd, k) == RefusedAt(s, events, maxRequests, fd, k)
      ensures ClosedAt(s, all, maxRequests, fd, k) == ClosedAt(s, events, maxRequests, fd, k)
    {
      SameBefore(s, events, e, maxRequests, fd, k);
    }
    if Lost(s, all, maxRequests, fd) {
      var k :| RefusedAt(s, all, maxRequests, fd, k)
               && forall j :: k < j < |all| ==> !ClosedAt(s, all, maxRequests, fd, j);
      RefusedInside(s, all, maxRequests, fd, k);
      if k < n {
        assert !ClosedAt(s, all, maxRequests, fd, n);
      }
    }
    if Lost(s, events, maxRequests, fd) && !ClosedAt(s, all, maxRequests, fd, n) {
      var k :| RefusedAt(s, events, maxRequests, fd, k)
               && forall j :: k < j < |events| ==> !ClosedAt(s, events, maxRequests, fd, j);
      RefusedInside(s, events, maxRequests, fd, k);
      assert RefusedAt(s, all, maxRequests, fd, k);
    }
  }

  lemma RefusedInside(s: Server, events: seq<Event>, maxRequests: nat, fd: int, k: int)
    requires RefusedAt(s, events, maxRequests, fd, k)
    ensures 0 <= k < |events|
  {
  }

  lemma LastAt(s: Server, events: seq<Event>, e: Event, maxRequests: nat, fd: int)
    requires Runs(s, events, maxRequests)
    ensures var t := After(s, events, maxRequests);
            && (RefusedAt(s, events + [e], maxRequests, fd, |events|) <==>
                e == Enqueue(fd) && |t.queue| >= maxRequests)
            && (ClosedAt(s, events + [e], maxRequests, fd, |events|) <==> Closes(t, e, fd))
  {
    assert (events + [e])[..|events|] == events;
  }

  /**
  In every run, closes anywhere in it: a connection is dropped exactly if append_p met a full queue with it, and it
  has not been closed since.
  */
  lemma {:induction false} DroppedExactly(s: Server, events: seq<Event>, maxRequests: nat, fd: int)
    requires Runs(s, events, maxRequests) && fd !in s.dropped
    ensures fd in After(s, events, maxRequests).dropped <==> Lost(s, events, maxRequests, fd)
    decreases |events|
  {
    hide Step, Closes, Enabled, Lost;
    if events == [] {
      NothingLost(s, maxRequests, fd);
    } else {
      var before, e := events[..|events| - 1], events[|events| - 1];
      assert events == before + [e];
      RunOfLast(s, before, e, maxRequests);
      DroppedExactly(s, before, maxRequests, fd);
      DroppedStep(After(s, before, maxRequests), e, maxRequests, fd);
      LostLast(s, before, e, maxRequests, fd);
    }
  }

  lemma NothingLost(s: Server, maxRequests: nat, fd: int)
    ensures !Lost(s, [], maxRequests, fd)
  {
  }

  /** No append_p meets a full queue. */
  ghost predicate NeverFull(s: Server, events: seq<Event>, maxRequests: nat) {
    forall k, fd :: !RefusedAt(s, events, maxRequests, fd, k)
  }

  /** While the queue is never full, each open connection is in exactly one place: none is dropped. */
  lemma NoneDropped(threads: nat, events: seq<Event>, maxRequests: nat, fd: int)
    requires Runs(Initial(threads), events, maxRequests) && OwnedRun(Initial(threads), events, maxRequests)
    requires NeverFull(Initial(threads), events, maxRequests)
    ensures var s := After(Initial(threads), events, maxRequests);
            fd !in s.dropped && Holders(s, fd) == One(fd in s.open)
  {
    hide Holders, RefusedAt;
    var s := After(Initial(threads), events, maxRequests);
    DroppedExactly(Initial(threads), events, maxRequests, fd);
    OneOwner(threads, events, maxRequests);
    assert Holders(s, fd) + One(fd in s.dropped) == One(fd in s.open);
  }

  // ---------- A connection that was not dropped is armed again ----------

  /** Whoever holds an open connection arms it when done. */
  lemma ArmedAgain(s: Server, e: Event, maxRequests: nat)
    requires Enabled(s, e)
    ensures e.Rearm? ==> Enabled(Step(s, e, maxRequests), Deliver(e.fd))
    ensures e.Finish? && s.workers[e.w].fd in s.open ==>
              Enabled(Step(s, e, maxRequests), Deliver(s.workers[e.w].fd))
  {
  }

  /** What the event loop and the workers do by themselves, without a close. */
  predicate Served(e: Event) {
    e.Rearm? || e.Take? || e.Finish?
  }

  lemma RunStep(s: Server, e: Event, rest: seq<Event>, maxRequests: nat)
    requires Enabled(s, e) && Runs(Step(s, e, maxRequests), rest, maxRequests)
    ensures Runs(s, [e] + rest, maxRequests)
    ensures After(s, [e] + rest, maxRequests) == After(Step(s, e, maxRequests), rest, maxRequests)
  {
    assert ([e] + rest)[1..] == rest;
  }

  lemma ServedStep(s: Server, e: Event, maxRequests: nat, fd: int)
    requires ExactlyOne(s) && Enabled(s, e) && Served(e) && fd in s.open && fd !in s.dropped
    ensures var r := Step(s, e, maxRequests);
            && ExactlyOne(r) && |r.workers| == |s.workers| && fd in r.open && fd !in r.dropped
            && (e.Take? ==> |r.queue| < |s.queue|)
            && (e.Finish? ==> r.queue == s.queue && r.workers[e.w].Idle?)
  {
    hide ExactlyOne, Flights;
    OwnedStep(s, e, maxRequests);
  }

  lemma Somewhere(s: Server, fd: int)
    requires ExactlyOne(s) && fd in s.open && fd !in s.dropped
    ensures fd in s.armed || fd in s.ready || fd in s.queue || Count(s.workers, On(fd)) > 0
  {
    assert Holders(s, fd) + One(fd in s.dropped) == One(fd in s.open);
  }

  /**
  From every state that an owned run reaches, and so at every point of one, the event loop and the workers alone
  bring each open connection that was not dropped back to where its next event is delivered.
  */
  lemma {:induction false} NeverStuck(s: Server, fd: int, maxRequests: nat) returns (events: seq<Event>)
    requires ExactlyOne(s) && s.workers != [] && fd in s.open && fd !in s.dropped
    ensures Runs(s, events, maxRequests) && Enabled(After(s, events, maxRequests), Deliver(fd))
    ensures forall k :: 0 <= k < |events| ==> Served(events[k])
    decreases |s.queue|, One(s.workers[0].Busy?)
  {
    hide ExactlyOne, Step, Flights, Count;
    Somewhere(s, fd);
    if fd in s.armed {
      events := [];
    } else if fd in s.ready {
      events := Armed(s, Rearm(fd), maxRequests, fd);
    } else if Count(s.workers, On(fd)) > 0 {
      var w := CountFinds(s.workers, On(fd));
      events := Armed(s, Finish(w), maxRequests, fd);
    } else {
      var e := if s.workers[0].Busy? then Finish(0) else Take(0);
      ServedStep(s, e, maxRequests, fd);
      var rest := NeverStuck(Step(s, e, maxRequests), fd, maxRequests);
      RunStep(s, e, rest, maxRequests);
      events := [e] + rest;
    }
  }

  lemma Armed(s: Server, e: Event, maxRequests: nat, fd: int) returns (events: seq<Event>)
    requires Enabled(s, e) && fd in s.open && (e == Rearm(fd) || (e.Finish? && s.workers[e.w].fd == fd))
    ensures Runs(s, events, maxRequests) && Enabled(After(s, events, maxRequests), Deliver(fd))
    ensures forall k :: 0 <= k < |events| ==> Served(events[k])
  {
    hide Step;
    events := [e];
    ArmedAgain(s, e, maxRequests);
    RunStep(s, e, [], maxRequests);
    assert [e] + [] == [e];
  }

  /**
  From any state in which a connection waits in the queue, a close by the timer lets the descriptor into the
  queue a second time.
  */
  lemma ClosedInFlight(s: Server, fd: int, maxRequests: nat)
    requires AtMostOne(s) && fd in s.open && fd in s.queue && |s.queue| < maxRequests
    ensures var e := [Close(fd), Accept(fd), Deliver(fd), Enqueue(fd)];
            Runs(s, e, maxRequests) && multiset(After(s, e, maxRequests).queue)[fd] >= 2
  {
    var e := [Close(fd), Accept(fd), Deliver(fd), Enqueue(fd)];
    var s1 := Step(s, e[0], maxRequests);
    var s2 := Step(s1, e[1], maxRequests);
    var s3 := Step(s2, e[2], maxRequests);
    var s4 := Step(s3, e[3], maxRequests);
    assert e[1..] == [Accept(fd), Deliver(fd), Enqueue(fd)] && e[1..][1..] == [Deliver(fd), Enqueue(fd)];
    assert e[1..][1..][1..] == [Enqueue(fd)] && e[1..][1..][1..][1..] == [];
    assert Runs(s4, [], maxRequests);
    assert Runs(s3, [Enqueue(fd)], maxRequests);
    assert Runs(s2, e[1..][1..], maxRequests);
    assert Runs(s1, e[1..], maxRequests);
    assert After(s3, [Enqueue(fd)], maxRequests) == s4;
    assert After(s2, e[1..][1..], maxRequests) == s4;
    assert After(s1, e[1..], maxRequests) == s4;
  }
}
