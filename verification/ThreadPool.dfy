/**
The request queue of the thread pool: any number of producers and workers, a mutex around the queue and a
semaphore. What a thread does while it holds the mutex is one step; between the steps of one thread every other
thread may run, so that there is a gap between the push and the post, and one between the wait and the pop.

The result of sem_wait is not looked at. A signal that interrupts it lets the worker through without having
taken anything from the semaphore; strays counts these, and empties how often a worker found the queue empty.
*/
module ThreadPool {
  import opened Sequences
  import opened Threads

  datatype Pc<T> =
    | Idle
    | Pushed
    | Waited
    | Processing(request: T)

  /**
  accepted, taken and finished record, in order, the requests that append accepted, that workers took, and those
  whose process() has returned.
  */
  datatype Pool<T> = Pool(queue: seq<T>, sem: nat, pcs: seq<Pc<T>>, accepted: seq<T>, taken: seq<T>,
                          finished: seq<T>, strays: nat, empties: nat)

  datatype Event<T> =
    | Append(t: nat, request: T)
    | Post(t: nat)
    | Wait(t: nat)
    | Interrupt(t: nat)
    | Pop(t: nat)
    | Finish(t: nat)

  function Initial<T>(threads: nat): Pool<T> {
    Pool([], 0, seq(threads, t => Idle), [], [], [], 0, 0)
  }

  predicate Enabled<T>(s: Pool<T>, e: Event<T>) {
    && e.t < |s.pcs|
    && match e
       case Append(t, _) => s.pcs[t].Idle?
       case Post(t) => s.pcs[t].Pushed?
       case Wait(t) => s.pcs[t].Idle? && s.sem > 0
       case Interrupt(t) => s.pcs[t].Idle?
       case Pop(t) => s.pcs[t].Waited?
       case Finish(t) => s.pcs[t].Processing?
  }

  function Step<T>(s: Pool<T>, e: Event<T>, maxRequests: nat): Pool<T>
    requires Enabled(s, e)
  {
    match e
    case Append(t, request) =>
      if |s.queue| >= maxRequests then s
      else s.(queue := s.queue + [request], accepted := s.accepted + [request], pcs := s.pcs[t := Pushed])
    case Post(t) => s.(sem := s.sem + 1, pcs := s.pcs[t := Idle])
    case Wait(t) => s.(sem := s.sem - 1, pcs := s.pcs[t := Waited])
    case Interrupt(t) => s.(strays := s.strays + 1, pcs := s.pcs[t := Waited])
    case Pop(t) =>
      if s.queue == [] then s.(empties := s.empties + 1, pcs := s.pcs[t := Idle])
      else s.(queue := s.queue[1..], taken := s.taken + [s.queue[0]], pcs := s.pcs[t := Processing(s.queue[0])])
    case Finish(t) => s.(pcs := s.pcs[t := Idle], finished := s.finished + [s.pcs[t].request])
  }

  predicate IsPushed<T>(pc: Pc<T>) {
    pc.Pushed?
  }

  predicate IsWaited<T>(pc: Pc<T>) {
    pc.Waited?
  }

  /** What a worker is processing. */
  ghost function InProcess<T>(pc: Pc<T>): multiset<T> {
    if pc.Processing? then multiset{pc.request} else multiset{}
  }

  /** What has been taken has been processed, or is being processed. */
  ghost predicate TakenProcessed<T>(s: Pool<T>) {
    multiset(s.taken) == multiset(s.finished) + Gather(s.pcs, InProcess)
  }

  ghost predicate Inv<T>(s: Pool<T>, maxRequests: nat) {
    && |s.queue| + s.strays == s.sem + Count(s.pcs, IsPushed) + Count(s.pcs, IsWaited) + s.empties
    && s.empties <= s.strays
    && s.accepted == s.taken + s.queue
    && |s.queue| <= maxRequests
    && TakenProcessed(s)
  }

  lemma StepKeepsTaken<T>(s: Pool<T>, e: Event<T>, maxRequests: nat)
    requires TakenProcessed(s) && Enabled(s, e)
    ensures TakenProcessed(Step(s, e, maxRequests))
  {
    hide Gather;
    var r := Step(s, e, maxRequests);
    assert r.pcs == s.pcs[e.t := r.pcs[e.t]];
    GatherMoved(s.pcs, e.t, r.pcs[e.t], InProcess);
    var before, now := InProcess(s.pcs[e.t]), InProcess(r.pcs[e.t]);
    Rebalanced(multiset(s.taken), multiset(r.taken), multiset(s.finished), multiset(r.finished),
               Gather(s.pcs, InProcess), Gather(r.pcs, InProcess), before, now);
  }

  lemma Rebalanced<T>(taken: multiset<T>, taken': multiset<T>, done: multiset<T>, done': multiset<T>,
                      g: multiset<T>, g': multiset<T>, before: multiset<T>, now: multiset<T>)
    requires taken == done + g && g' + before == g + now
    requires taken' + done + before == taken + done' + now
    ensures taken' == done' + g'
  {
    assert taken' + (done + before) == taken' + done + before;
    assert (done + g) + done' + now == (done + done') + (g + now);
    assert (done + done') + (g' + before) == (done' + g') + (done + before);
    Cancelled(taken', done' + g', done + before);
  }

  lemma StepKeeps<T>(s: Pool<T>, e: Event<T>, maxRequests: nat)
    requires Inv(s, maxRequests) && Enabled(s, e)
    ensures Inv(Step(s, e, maxRequests), maxRequests)
  {
    hide Gather, TakenProcessed;
    StepKeepsTaken(s, e, maxRequests);
    var r := Step(s, e, maxRequests);
    CountMoved(s.pcs, e.t, r.pcs[e.t], IsPushed);
    CountMoved(s.pcs, e.t, r.pcs[e.t], IsWaited);
    assert r.pcs == s.pcs[e.t := r.pcs[e.t]];
    if e.Pop? {
      CountedOne(s.pcs, e.t, IsWaited);
    }
  }

  ghost predicate Runs<T>(s: Pool<T>, events: seq<Event<T>>, maxRequests: nat)
    decreases |events|
  {
    events != [] ==> Enabled(s, events[0]) && Runs(Step(s, events[0], maxRequests), events[1..], maxRequests)
  }

  ghost function After<T>(s: Pool<T>, events: seq<Event<T>>, maxRequests: nat): Pool<T>
    requires Runs(s, events, maxRequests)
    decreases |events|
  {
    if events == [] then s else After(Step(s, events[0], maxRequests), events[1..], maxRequests)
  }

  lemma {:induction false} RunKeeps<T>(s: Pool<T>, events: seq<Event<T>>, maxRequests: nat)
    requires Inv(s, maxRequests) && Runs(s, events, maxRequests)
    ensures Inv(After(s, events, maxRequests), maxRequests)
    decreases |events|
  {
    if events != [] {
      StepKeeps(s, events[0], maxRequests);
      RunKeeps(Step(s, events[0], maxRequests), events[1..], maxRequests);
    }
  }

  lemma InitialInv<T>(threads: nat, maxRequests: nat)
    ensures Inv(Initial<T>(threads), maxRequests)
  {
    var s := Initial<T>(threads);
    CountsNone(s.pcs, IsPushed);
    CountsNone(s.pcs, IsWaited);
    GathersNone(s.pcs, InProcess);
  }

  /**
  In every run: the queue length is the value of the semaphore and the threads inside the two gaps, up to the
  interrupted waits; requests are taken in the order in which they were accepted; each accepted one is waiting,
  being processed by one worker or processed, once; and the queue stays bounded.
  */
  lemma Accounts<T>(threads: nat, events: seq<Event<T>>, maxRequests: nat)
    requires Runs(Initial<T>(threads), events, maxRequests)
    ensures var s := After(Initial<T>(threads), events, maxRequests);
            && |s.queue| + s.strays == s.sem + Count(s.pcs, IsPushed) + Count(s.pcs, IsWaited) + s.empties
            && s.accepted == s.taken + s.queue && |s.queue| <= maxRequests
            && multiset(s.taken) == multiset(s.finished) + Gather(s.pcs, InProcess)
            && multiset(s.accepted) == multiset(s.finished) + Gather(s.pcs, InProcess) + multiset(s.queue)
  {
    InitialInv<T>(threads, maxRequests);
    RunKeeps(Initial<T>(threads), events, maxRequests);
  }

  /**
  In every run, the k-th successful pop leaves its worker processing the k-th accepted request, and append accepts
  its request exactly if there is room.
  */
  lemma ProcessedInOrder<T>(threads: nat, events: seq<Event<T>>, maxRequests: nat, e: Event<T>)
    requires Runs(Initial(threads), events, maxRequests) && Enabled(After(Initial(threads), events, maxRequests), e)
    ensures var s := After(Initial(threads), events, maxRequests);
            var r := Step(s, e, maxRequests);
            && (e.Pop? && |s.taken| < |s.accepted| ==>
              && r.pcs[e.t] == Processing(s.accepted[|s.taken|]) && r.taken == s.accepted[..|s.taken| + 1])
            && (e.Append? ==>
              r.accepted == if |s.accepted| - |s.taken| < maxRequests then s.accepted + [e.request] else s.accepted)
            && (!e.Append? ==> r.accepted == s.accepted)
  {
    InitialInv<T>(threads, maxRequests);
    RunKeeps(Initial<T>(threads), events, maxRequests);
  }

  /** A worker finds the queue empty at most as often as a wait has been interrupted. */
  lemma EmptyOnlyAfterInterrupts<T>(threads: nat, events: seq<Event<T>>, maxRequests: nat)
    requires Runs(Initial<T>(threads), events, maxRequests)
    ensures var s := After(Initial<T>(threads), events, maxRequests);
            && s.empties <= s.strays
            && forall t :: 0 <= t < |s.pcs| && s.pcs[t].Waited? && s.queue == [] ==> s.empties < s.strays
  {
    InitialInv<T>(threads, maxRequests);
    RunKeeps(Initial<T>(threads), events, maxRequests);
    var s := After(Initial<T>(threads), events, maxRequests);
    forall t | 0 <= t < |s.pcs| && s.pcs[t].Waited? && s.queue == []
      ensures s.empties < s.strays
    {
      CountedOne(s.pcs, t, IsWaited);
    }
  }

  /** If no wait is ever interrupted, a worker that has passed the semaphore finds a request. */
  lemma NeverEmpty<T>(threads: nat, events: seq<Event<T>>, maxRequests: nat)
    requires Runs(Initial<T>(threads), events, maxRequests)
    requires forall k :: 0 <= k < |events| ==> !events[k].Interrupt?
    ensures var s := After(Initial<T>(threads), events, maxRequests);
            forall t :: 0 <= t < |s.pcs| && s.pcs[t].Waited? ==> s.queue != []
  {
    NoStrays(Initial<T>(threads), events, maxRequests);
    EmptyOnlyAfterInterrupts(threads, events, maxRequests);
  }

  lemma {:induction false} NoStrays<T>(s: Pool<T>, events: seq<Event<T>>, maxRequests: nat)
    requires Runs(s, events, maxRequests) && forall k :: 0 <= k < |events| ==> !events[k].Interrupt?
    ensures After(s, events, maxRequests).strays == s.strays
    decreases |events|
  {
    if events != [] {
      assert !events[0].Interrupt?;
      NoStrays(Step(s, events[0], maxRequests), events[1..], maxRequests);
    }
  }

  /** No request is forgotten: when no thread is inside a gap, the semaphore lets a worker through for each. */
  lemma NoneForgotten<T>(s: Pool<T>, maxRequests: nat)
    requires Inv(s, maxRequests)
    requires forall t :: 0 <= t < |s.pcs| ==> !s.pcs[t].Pushed? && !s.pcs[t].Waited?
    ensures s.sem >= |s.queue|
    ensures s.strays == 0 ==> s.sem == |s.queue|
  {
    CountsNone(s.pcs, IsPushed);
    CountsNone(s.pcs, IsWaited);
  }

  // ---------- Every accepted request is processed ----------

  /** What the threads do by themselves: nothing is appended, and no wait is interrupted. */
  predicate Working<T>(e: Event<T>) {
    e.Post? || e.Wait? || e.Pop? || e.Finish?
  }

  lemma RunStep<T>(s: Pool<T>, e: Event<T>, rest: seq<Event<T>>, maxRequests: nat)
    requires Enabled(s, e) && Runs(Step(s, e, maxRequests), rest, maxRequests)
    ensures Runs(s, [e] + rest, maxRequests)
    ensures After(s, [e] + rest, maxRequests) == After(Step(s, e, maxRequests), rest, maxRequests)
  {
    assert ([e] + rest)[1..] == rest;
  }

  /** A step that brings a thread nearer to the next pop, and how many are missing then. */
  lemma NextWork<T>(s: Pool<T>, t: nat, maxRequests: nat) returns (e: Event<T>)
    requires Inv(s, maxRequests) && t < |s.pcs| && s.queue != []
    requires s.sem > 0 || s.pcs[t].Pushed? || s.pcs[t].Waited?
    ensures Working(e) && e.t == t && Enabled(s, e)
    ensures var r := Step(s, e, maxRequests);
            && |r.pcs| == |s.pcs| && r.accepted == s.accepted
            && if s.pcs[t].Waited? then r.taken == s.taken + [s.queue[0]] && r.queue == s.queue[1..]
               else
                 && r.taken == s.taken && r.queue == s.queue && Distance(r.pcs[t]) < Distance(s.pcs[t])
                 && (r.sem > 0 || r.pcs[t].Waited?)
  {
    match s.pcs[t]
    case Idle => e := Wait(t);
    case Pushed => e := Post(t);
    case Waited => e := Pop(t);
    case Processing(_) => e := Finish(t);
  }

  function Distance<T>(pc: Pc<T>): nat {
    match pc
    case Waited => 0
    case Idle => 1
    case Pushed => 2
    case Processing(_) => 2
  }

  /** One of the threads can go on to the next request. */
  lemma SomeoneCan<T>(s: Pool<T>, maxRequests: nat) returns (t: nat)
    requires Inv(s, maxRequests) && s.pcs != [] && s.queue != []
    ensures t < |s.pcs| && (s.sem > 0 || s.pcs[t].Pushed? || s.pcs[t].Waited?)
  {
    if s.sem > 0 {
      t := 0;
    } else if Count(s.pcs, IsPushed) > 0 {
      t := CountFinds(s.pcs, IsPushed);
    } else {
      t := CountFinds(s.pcs, IsWaited);
    }
  }

  lemma {:induction false} TakesNext<T>(s: Pool<T>, t: nat, maxRequests: nat) returns (events: seq<Event<T>>)
    requires Inv(s, maxRequests) && t < |s.pcs| && s.queue != []
    requires s.sem > 0 || s.pcs[t].Pushed? || s.pcs[t].Waited?
    ensures Runs(s, events, maxRequests) && forall k :: 0 <= k < |events| ==> Working(events[k])
    ensures var r := After(s, events, maxRequests);
            && Inv(r, maxRequests) && |r.pcs| == |s.pcs| && r.accepted == s.accepted && r.queue == s.queue[1..]
    decreases Distance(s.pcs[t])
  {
    hide Inv, Step, Enabled;
    var e := NextWork(s, t, maxRequests);
    StepKeeps(s, e, maxRequests);
    var r := Step(s, e, maxRequests);
    var rest := [];
    if !s.pcs[t].Waited? {
      rest := TakesNext(r, t, maxRequests);
    }
    RunStep(s, e, rest, maxRequests);
    events := [e] + rest;
  }

  lemma {:induction false} RunAppend<T>(s: Pool<T>, a: seq<Event<T>>, b: seq<Event<T>>, maxRequests: nat)
    requires Runs(s, a, maxRequests) && Runs(After(s, a, maxRequests), b, maxRequests)
    ensures Runs(s, a + b, maxRequests)
    ensures After(s, a + b, maxRequests) == After(After(s, a, maxRequests), b, maxRequests)
    decreases |a|
  {
    hide Step, Enabled;
    if a == [] {
      assert a + b == b;
    } else {
      assert (a + b)[1..] == a[1..] + b;
      RunAppend(Step(s, a[0], maxRequests), a[1..], b, maxRequests);
    }
  }

  /**
  From every state that can be reached, the threads by themselves take every accepted request: nothing is stuck, also
  after interrupted waits.
  */
  lemma {:induction false} AllTaken<T>(s: Pool<T>, maxRequests: nat) returns (events: seq<Event<T>>)
    requires Inv(s, maxRequests) && s.pcs != []
    ensures Runs(s, events, maxRequests) && forall k :: 0 <= k < |events| ==> Working(events[k])
    ensures var r := After(s, events, maxRequests);
            Inv(r, maxRequests) && |r.pcs| == |s.pcs| && r.accepted == s.accepted == r.taken
    decreases |s.queue|
  {
    hide Inv, Step, Enabled;
    if s.queue == [] {
      events := [];
      NoneWaiting(s, maxRequests);
    } else {
      var t := SomeoneCan(s, maxRequests);
      var first := TakesNext(s, t, maxRequests);
      var rest := AllTaken(After(s, first, maxRequests), maxRequests);
      RunAppend(s, first, rest, maxRequests);
      events := first + rest;
    }
  }

  lemma NoneWaiting<T>(s: Pool<T>, maxRequests: nat)
    requires Inv(s, maxRequests) && s.queue == []
    ensures s.accepted == s.taken
  {
  }

  /** And they process it: in the end, the processed requests are the accepted ones, each once. */
  lemma AllProcessed<T>(s: Pool<T>, maxRequests: nat) returns (events: seq<Event<T>>)
    requires Inv(s, maxRequests) && s.pcs != []
    ensures Runs(s, events, maxRequests) && forall k :: 0 <= k < |events| ==> Working(events[k])
    ensures multiset(After(s, events, maxRequests).finished) == multiset(s.accepted)
  {
    hide Inv, Step, Enabled;
    var first := AllTaken(s, maxRequests);
    var r := After(s, first, maxRequests);
    var rest := AllFinish(r, |r.pcs|, maxRequests);
    RunAppend(s, first, rest, maxRequests);
    events := first + rest;
    var last := After(s, events, maxRequests);
    NothingInProcess(last, maxRequests);
  }

  lemma NothingInProcess<T>(s: Pool<T>, maxRequests: nat)
    requires Inv(s, maxRequests) && forall t :: 0 <= t < |s.pcs| ==> !s.pcs[t].Processing?
    ensures multiset(s.finished) == multiset(s.taken)
  {
    GathersNone(s.pcs, InProcess);
  }

  /** Threads 0 to n come to the end of what they process. */
  lemma {:induction false} AllFinish<T>(s: Pool<T>, n: nat, maxRequests: nat) returns (events: seq<Event<T>>)
    requires Inv(s, maxRequests) && n <= |s.pcs|
    requires forall t :: n <= t < |s.pcs| ==> !s.pcs[t].Processing?
    ensures Runs(s, events, maxRequests) && forall k :: 0 <= k < |events| ==> Working(events[k])
    ensures var r := After(s, events, maxRequests);
            && Inv(r, maxRequests) && r.taken == s.taken && |r.pcs| == |s.pcs|
            && forall t :: 0 <= t < |r.pcs| ==> !r.pcs[t].Processing?
    decreases n
  {
    hide Inv;
    if n == 0 {
      events := [];
    } else if s.pcs[n - 1].Processing? {
      StepKeeps(s, Finish(n - 1), maxRequests);
      var rest := AllFinish(Step(s, Finish(n - 1), maxRequests), n - 1, maxRequests);
      RunStep(s, Finish(n - 1), rest, maxRequests);
      events := [Finish(n - 1)] + rest;
    } else {
      events := AllFinish(s, n - 1, maxRequests);
    }
  }

  /** With an interrupted wait the branch for an empty queue is taken, and the counts drift apart for good. */
  lemma InterruptedWaitFindsNothing<T>(maxRequests: nat)
    ensures var s := Initial<T>(1);
            var e: seq<Event<T>> := [Interrupt(0), Pop(0)];
            Runs(s, e, maxRequests) && After(s, e, maxRequests).empties == 1
  {
    var s := Initial<T>(1);
    var e: seq<Event<T>> := [Interrupt(0), Pop(0)];
    var s1 := Step(s, e[0], maxRequests);
    var s2 := Step(s1, e[1], maxRequests);
    assert e[1..] == [Pop(0)] && e[1..][1..] == [];
    assert Runs(s2, [], maxRequests);
    assert Runs(s1, e[1..], maxRequests);
    assert After(s1, e[1..], maxRequests) == s2;
  }
}
