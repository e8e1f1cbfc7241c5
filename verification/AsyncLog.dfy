/**
The asynchronous logger: any number of producers that each test full() and then push, or write the line
themselves, and one consumer that pops lines and writes them to the file. Between the test and the push other
producers may push, and the result of push is not looked at.
*/
module AsyncLog {
  import opened LogRing
  import opened Sequences
  import opened Threads

  /**
  ToPush: full() returned false; room is the number of free slots it saw, and seen the number of pushes that the
  other producers had made until then. ToFile: the line is to be written without the queue.
  */
  datatype Producer<L> =
    | Idle
    | Formed(line: L)
    | ToPush(line: L, room: nat, seen: int)
    | ToFile(line: L)

  datatype Consumer<L> = Empty | Holding(line: L)

  /** A line in the file, and whether the consumer wrote it. */
  datatype Entry<L> = Entry(line: L, viaQueue: bool)

  /**
  issued, queued and discarded record the lines that were formed, that push accepted, and that push refused. own
  counts the successful pushes of each producer.
  */
  datatype Log<L> = Log(producers: seq<Producer<L>>, ring: Ring<L>, consumer: Consumer<L>, file: seq<Entry<L>>,
                        issued: seq<L>, queued: seq<L>, discarded: seq<L>, own: seq<nat>)

  datatype Event<L> =
    | Form(t: nat, line: L)
    | Test(t: nat)
    | Push(t: nat)
    | Write(t: nat)
    | Take
    | Drain

  function Start<L>(slots: seq<L>, producers: nat): Log<L> {
    Log(seq(producers, t => Idle), Ring(slots, 0, -1, -1), Empty, [], [], [], [], seq(producers, t => 0))
  }

  ghost predicate Enabled<L>(s: Log<L>, e: Event<L>) {
    && |s.ring.slots| > 0 && |s.own| == |s.producers|
    && match e
       case Form(t, _) => t < |s.producers| && s.producers[t].Idle?
       case Test(t) => t < |s.producers| && s.producers[t].Formed?
       case Push(t) => t < |s.producers| && s.producers[t].ToPush?
       case Write(t) => t < |s.producers| && s.producers[t].ToFile?
       case Take => s.consumer.Empty? && s.ring.size > 0
       case Drain => s.consumer.Holding?
  }

  /** The successful pushes of all producers but t. */
  ghost function Others<L>(s: Log<L>, t: nat): int
    requires t < |s.own|
  {
    |s.queued| - s.own[t]
  }

  ghost function Step<L>(s: Log<L>, e: Event<L>, isAsync: bool): (r: Log<L>)
    requires Enabled(s, e)
  {
    match e
    case Form(t, line) => s.(producers := s.producers[t := Formed(line)], issued := s.issued + [line])
    case Test(t) =>
      var line := s.producers[t].line;
      if isAsync && s.ring.size < |s.ring.slots| then
        s.(producers := s.producers[t := ToPush(line, |s.ring.slots| - s.ring.size, Others(s, t))])
      else s.(producers := s.producers[t := ToFile(line)])
    case Push(t) =>
      var line := s.producers[t].line;
      if s.ring.size >= |s.ring.slots| then
        s.(producers := s.producers[t := Idle], discarded := s.discarded + [line])
      else
        s.(producers := s.producers[t := Idle], ring := Pushed(s.ring, line), queued := s.queued + [line],
           own := s.own[t := s.own[t] + 1])
    case Write(t) => s.(producers := s.producers[t := Idle], file := s.file + [Entry(s.producers[t].line, false)])
    case Take => s.(ring := Popped(s.ring), consumer := Holding(First(s.ring)))
    case Drain => s.(consumer := Empty, file := s.file + [Entry(s.consumer.line, true)])
  }

  ghost function InHand<L>(p: Producer<L>): multiset<L> {
    if p.Idle? then multiset{} else multiset{p.line}
  }

  function Held<L>(c: Consumer<L>): seq<L> {
    if c.Empty? then [] else [c.line]
  }

  /** The lines in the file. */
  function Lines<L>(file: seq<Entry<L>>): seq<L> {
    if file == [] then [] else Lines(file[..|file| - 1]) + [file[|file| - 1].line]
  }

  /** The lines in the file that came through the queue. */
  function ViaQueue<L>(file: seq<Entry<L>>): seq<L> {
    if file == [] then []
    else
      var last := file[|file| - 1];
      ViaQueue(file[..|file| - 1]) + if last.viaQueue then [last.line] else []
  }

  lemma Written<L>(file: seq<Entry<L>>, e: Entry<L>)
    ensures Lines(file + [e]) == Lines(file) + [e.line]
    ensures ViaQueue(file + [e]) == ViaQueue(file) + if e.viaQueue then [e.line] else []
  {
    assert (file + [e])[..|file|] == file;
  }

  /** Every line is in one place: with a producer, in the ring, with the consumer, in the file, or discarded. */
  ghost predicate Conserved<L>(s: Log<L>)
    requires |s.ring.slots| > 0
  {
    multiset(s.issued) ==
    Gather(s.producers, InHand) + multiset(Contents(s.ring)) + multiset(Held(s.consumer))
      + multiset(Lines(s.file)) + multiset(s.discarded)
  }

  /** The ring can be full although producer t saw it was not, only if others have used what was free. */
  ghost predicate RoomUsed<L>(s: Log<L>, t: nat)
    requires t < |s.producers| && t < |s.own|
  {
    && Others(s, t) >= 0
    && (s.producers[t].ToPush? ==>
      var p := s.producers[t];
      && p.room >= 1 && 0 <= p.seen <= Others(s, t)
      && s.ring.size + p.room <= |s.ring.slots| + (Others(s, t) - p.seen))
  }

  ghost predicate Inv<L>(s: Log<L>) {
    && Valid(s.ring) && |s.own| == |s.producers|
    && Conserved(s)
    && s.queued == ViaQueue(s.file) + Held(s.consumer) + Contents(s.ring)
    && (forall t :: 0 <= t < |s.producers| ==> RoomUsed(s, t))
    && (|s.producers| == 1 ==> Others(s, 0) == 0)
  }

  // ---------- What one step keeps ----------

  lemma ProducerMoved<L>(s: Log<L>, t: nat, p: Producer<L>)
    requires t < |s.producers|
    ensures Gather(s.producers[t := p], InHand) + InHand(s.producers[t]) == Gather(s.producers, InHand) + InHand(p)
  {
    GatherMoved(s.producers, t, p, InHand);
  }

  lemma FormConserves<L>(s: Log<L>, t: nat, line: L)
    requires Valid(s.ring) && Conserved(s) && t < |s.producers| && s.producers[t].Idle?
    ensures Conserved(s.(producers := s.producers[t := Formed(line)], issued := s.issued + [line]))
  {
    hide Contents, Valid, Gather, Lines;
    ProducerMoved(s, t, Formed(line));
    assert Gather(s.producers[t := Formed(line)], InHand) == Gather(s.producers, InHand) + multiset{line};
    assert multiset(s.issued + [line]) == multiset(s.issued) + multiset{line};
  }

  /** A producer that lets go of its line leaves the sum of the other places short of that line. */
  lemma LetGo<L>(s: Log<L>, t: nat)
    requires Valid(s.ring) && Conserved(s) && t < |s.producers| && !s.producers[t].Idle?
    ensures multiset(s.issued) ==
            Gather(s.producers[t := Idle], InHand) + multiset(Contents(s.ring)) + multiset(Held(s.consumer))
              + multiset(Lines(s.file)) + multiset(s.discarded) + multiset{s.producers[t].line}
  {
    hide Contents, Valid, Gather, Lines;
    ProducerMoved(s, t, Idle);
    assert Gather(s.producers[t := Idle], InHand) + multiset{s.producers[t].line} == Gather(s.producers, InHand);
  }

  lemma TestConserves<L>(s: Log<L>, t: nat, p: Producer<L>)
    requires Valid(s.ring) && Conserved(s) && t < |s.producers| && InHand(p) == InHand(s.producers[t])
    ensures Conserved(s.(producers := s.producers[t := p]))
  {
    hide Contents, Valid, Gather, Lines, InHand;
    ProducerMoved(s, t, p);
    Cancelled(Gather(s.producers[t := p], InHand), Gather(s.producers, InHand), InHand(p));
  }

  lemma PushConserves<L>(s: Log<L>, t: nat)
    requires Valid(s.ring) && Conserved(s) && t < |s.producers| && s.producers[t].ToPush?
    ensures Valid(Pushed(s.ring, s.producers[t].line))
    ensures s.ring.size < |s.ring.slots| ==>
              Conserved(s.(producers := s.producers[t := Idle], ring := Pushed(s.ring, s.producers[t].line)))
    ensures s.ring.size >= |s.ring.slots| ==>
              Conserved(s.(producers := s.producers[t := Idle], discarded := s.discarded + [s.producers[t].line]))
  {
    hide Contents, Valid, Gather, Lines;
    LetGo(s, t);
    PushAppends(s.ring, s.producers[t].line);
  }

  lemma TakeConserves<L>(s: Log<L>)
    requires Valid(s.ring) && Conserved(s) && s.consumer.Empty? && s.ring.size > 0
    ensures Valid(Popped(s.ring))
    ensures Conserved(s.(ring := Popped(s.ring), consumer := Holding(First(s.ring))))
  {
    hide Contents, Valid, Gather, Lines;
    PopTakesFirst(s.ring);
    assert multiset(Contents(s.ring)) == multiset([First(s.ring)]) + multiset(Contents(Popped(s.ring)));
  }

  lemma WriteConserves<L>(s: Log<L>, t: nat)
    requires Valid(s.ring) && Conserved(s) && t < |s.producers| && !s.producers[t].Idle?
    ensures Conserved(s.(producers := s.producers[t := Idle], file := s.file + [Entry(s.producers[t].line, false)]))
  {
    hide Contents, Valid, Gather, Lines;
    LetGo(s, t);
    Written(s.file, Entry(s.producers[t].line, false));
  }

  lemma DrainConserves<L>(s: Log<L>)
    requires Valid(s.ring) && Conserved(s) && s.consumer.Holding?
    ensures Conserved(s.(consumer := Empty, file := s.file + [Entry(s.consumer.line, true)]))
  {
    hide Contents, Valid, Gather, Lines;
    Written(s.file, Entry(s.consumer.line, true));
  }

  lemma StepConserves<L>(s: Log<L>, e: Event<L>, isAsync: bool)
    requires Inv(s) && Enabled(s, e)
    ensures Valid(Step(s, e, isAsync).ring) && Conserved(Step(s, e, isAsync))
  {
    hide Contents, Valid, Gather, RoomUsed, Held, Pushed, Popped, Lines, ViaQueue;
    match e
    case Form(t, line) => FormConserves(s, t, line);
    case Test(t) => TestConserves(s, t, Step(s, e, isAsync).producers[t]);
    case Push(t) => PushConserves(s, t);
    case Write(t) => WriteConserves(s, t);
    case Take => TakeConserves(s);
    case Drain => DrainConserves(s);
  }

  lemma StepKeepsOrder<L>(s: Log<L>, e: Event<L>, isAsync: bool)
    requires Inv(s) && Enabled(s, e)
    ensures var r := Step(s, e, isAsync);
            |r.ring.slots| == |s.ring.slots| && r.queued == ViaQueue(r.file) + Held(r.consumer) + Contents(r.ring)
  {
    hide Contents, Valid, Gather, Conserved, RoomUsed, ViaQueue;
    if e.Write? {
      Written(s.file, Entry(s.producers[e.t].line, false));
    }
    if e.Drain? {
      Written(s.file, Entry(s.consumer.line, true));
    }
    if e.Push? {
      PushAppends(s.ring, s.producers[e.t].line);
    }
    if e.Take? {
      PopTakesFirst(s.ring);
    }
  }

  lemma StepKeepsRoom<L>(s: Log<L>, e: Event<L>, isAsync: bool, t: nat)
    requires Inv(s) && Enabled(s, e) && t < |s.producers|
    ensures RoomUsed(Step(s, e, isAsync), t)
    ensures |s.producers| == 1 ==> Others(Step(s, e, isAsync), 0) == 0
  {
    hide Contents, Valid, Gather, Conserved, ViaQueue;
    assert RoomUsed(s, t);
  }

  lemma StepKeeps<L>(s: Log<L>, e: Event<L>, isAsync: bool)
    requires Inv(s) && Enabled(s, e)
    ensures Inv(Step(s, e, isAsync)) && |Step(s, e, isAsync).producers| == |s.producers|
  {
    hide Contents, Valid, Gather, Conserved, RoomUsed, Others, ViaQueue;
    StepConserves(s, e, isAsync);
    StepKeepsOrder(s, e, isAsync);
    forall t | 0 <= t < |s.producers|
      ensures RoomUsed(Step(s, e, isAsync), t)
    {
      StepKeepsRoom(s, e, isAsync, t);
    }
    if |s.producers| == 1 {
      StepKeepsRoom(s, e, isAsync, 0);
    }
  }

  // ---------- Whole runs ----------

  ghost predicate Runs<L>(s: Log<L>, events: seq<Event<L>>, isAsync: bool)
    decreases |events|
  {
    events != [] ==> Enabled(s, events[0]) && Runs(Step(s, events[0], isAsync), events[1..], isAsync)
  }

  ghost function After<L>(s: Log<L>, events: seq<Event<L>>, isAsync: bool): Log<L>
    requires Runs(s, events, isAsync)
    decreases |events|
  {
    if events == [] then s else After(Step(s, events[0], isAsync), events[1..], isAsync)
  }

  lemma {:induction false} RunKeeps<L>(s: Log<L>, events: seq<Event<L>>, isAsync: bool)
    requires Inv(s) && Runs(s, events, isAsync)
    ensures Inv(After(s, events, isAsync)) && |After(s, events, isAsync).producers| == |s.producers|
    ensures |s.producers| == 1 && s.discarded == [] ==> After(s, events, isAsync).discarded == []
    decreases |events|
  {
    hide Inv, Conserved, Contents, Valid, RoomUsed;
    if events != [] {
      StepKeeps(s, events[0], isAsync);
      if |s.producers| == 1 {
        AloneKeeps(s, events[0], isAsync);
      }
      RunKeeps(Step(s, events[0], isAsync), events[1..], isAsync);
    }
  }

  /** A lone producer that saw room still finds it. */
  lemma AloneKeeps<L>(s: Log<L>, e: Event<L>, isAsync: bool)
    requires Inv(s) && Enabled(s, e) && |s.producers| == 1
    ensures Step(s, e, isAsync).discarded == s.discarded
  {
    hide Conserved, Contents, Valid;
    assert RoomUsed(s, 0);
  }

  lemma StartInv<L>(slots: seq<L>, producers: nat)
    requires slots != []
    ensures Inv(Start(slots, producers))
  {
    var s := Start(slots, producers);
    EmptiedIsEmpty(s.ring);
    GathersNone(s.producers, InHand);
  }

  /**
  In every run each line is in exactly one place, and the lines in the file that came through the queue stand there
  in the order in which they went in.
  */
  lemma LinesConserved<L>(slots: seq<L>, producers: nat, events: seq<Event<L>>, isAsync: bool)
    requires slots != [] && Runs(Start(slots, producers), events, isAsync)
    ensures var s := After(Start(slots, producers), events, isAsync);
            && |s.ring.slots| > 0 && Conserved(s)
            && s.queued == ViaQueue(s.file) + Held(s.consumer) + Contents(s.ring)
  {
    StartInv(slots, producers);
    RunKeeps(Start(slots, producers), events, isAsync);
  }

  /** When no producer writes for itself, the file is what was queued, in that order, up to what is still on its way. */
  lemma QueueIsFile<L>(slots: seq<L>, producers: nat, events: seq<Event<L>>, isAsync: bool)
    requires slots != [] && Runs(Start(slots, producers), events, isAsync)
    requires forall k :: 0 <= k < |events| ==> !events[k].Write?
    ensures var s := After(Start(slots, producers), events, isAsync);
            |s.ring.slots| > 0 && s.queued == Lines(s.file) + Held(s.consumer) + Contents(s.ring)
  {
    LinesConserved(slots, producers, events, isAsync);
    AllViaQueue(Start(slots, producers), events, isAsync);
  }

  lemma {:induction false} AllViaQueue<L>(s: Log<L>, events: seq<Event<L>>, isAsync: bool)
    requires Runs(s, events, isAsync) && Lines(s.file) == ViaQueue(s.file)
    requires forall k :: 0 <= k < |events| ==> !events[k].Write?
    ensures var r := After(s, events, isAsync); Lines(r.file) == ViaQueue(r.file)
    decreases |events|
  {
    hide Lines, ViaQueue;
    if events != [] {
      assert !events[0].Write?;
      if events[0].Drain? {
        Written(s.file, Entry(s.consumer.line, true));
      }
      AllViaQueue(Step(s, events[0], isAsync), events[1..], isAsync);
    }
  }

  /** What is in the file stays there. */
  lemma {:induction false} FileGrows<L>(s: Log<L>, events: seq<Event<L>>, isAsync: bool)
    requires Runs(s, events, isAsync)
    ensures s.file <= After(s, events, isAsync).file
    decreases |events|
  {
    if events != [] {
      assert s.file <= Step(s, events[0], isAsync).file;
      FileGrows(Step(s, events[0], isAsync), events[1..], isAsync);
    }
  }

  /** A formed line goes to the queue exactly if the logger is asynchronous and the ring has room. */
  lemma Routed<L>(s: Log<L>, t: nat, isAsync: bool)
    requires Inv(s) && Enabled(s, Test(t))
    ensures var p := Step(s, Test(t), isAsync).producers[t];
            && p.line == s.producers[t].line
            && (p.ToPush? <==> isAsync && |Contents(s.ring)| < |s.ring.slots|)
            && (p.ToFile? <==> !p.ToPush?)
  {
    hide Conserved, RoomUsed, ViaQueue;
  }

  /** Nothing is on its way into the queue. */
  ghost predicate Direct<L>(s: Log<L>) {
    && s.queued == []
    && forall t :: 0 <= t < |s.producers| ==> !s.producers[t].ToPush?
  }

  /** The lines of a lone producer that are not in the file yet. */
  function Unwritten<L>(s: Log<L>): seq<L> {
    if |s.producers| != 1 || s.producers[0].Idle? then [] else [s.producers[0].line]
  }

  lemma DirectStep<L>(s: Log<L>, e: Event<L>)
    requires Inv(s) && Direct(s) && Enabled(s, e)
    ensures Direct(Step(s, e, false))
    ensures |s.producers| == 1 && s.issued == Lines(s.file) + Unwritten(s) ==>
              var r := Step(s, e, false); r.issued == Lines(r.file) + Unwritten(r)
  {
    hide Conserved, RoomUsed, Lines, ViaQueue, Gather;
    if e.Write? {
      Written(s.file, Entry(s.producers[e.t].line, false));
    }
  }

  lemma {:induction false} DirectRun<L>(s: Log<L>, events: seq<Event<L>>)
    requires Inv(s) && Direct(s) && Runs(s, events, false)
    ensures Direct(After(s, events, false))
    ensures |s.producers| == 1 && s.issued == Lines(s.file) + Unwritten(s) ==>
              var r := After(s, events, false); r.issued == Lines(r.file) + Unwritten(r)
    decreases |events|
  {
    hide Inv, Direct, Step, Enabled, Lines, Unwritten;
    if events != [] {
      StepKeeps(s, events[0], false);
      DirectStep(s, events[0]);
      DirectRun(Step(s, events[0], false), events[1..]);
    }
  }

  /** The synchronous logger queues nothing, and with one producer its file is what was logged, in that order. */
  lemma Synchronous<L>(slots: seq<L>, producers: nat, events: seq<Event<L>>)
    requires slots != [] && Runs(Start(slots, producers), events, false)
    ensures var s := After(Start(slots, producers), events, false);
            && s.queued == [] && s.discarded == []
            && (producers == 1 ==> s.issued == Lines(s.file) + Unwritten(s))
  {
    StartInv(slots, producers);
    DirectRun(Start(slots, producers), events);
    DirectDiscardsNone(Start(slots, producers), events);
  }

  lemma {:induction false} DirectDiscardsNone<L>(s: Log<L>, events: seq<Event<L>>)
    requires Inv(s) && Direct(s) && Runs(s, events, false)
    ensures After(s, events, false).discarded == s.discarded
    decreases |events|
  {
    hide Inv, Lines, Unwritten;
    if events != [] {
      StepKeeps(s, events[0], false);
      DirectStep(s, events[0]);
      DirectDiscardsNone(Step(s, events[0], false), events[1..]);
    }
  }

  lemma RunStep<L>(s: Log<L>, e: Event<L>, rest: seq<Event<L>>, isAsync: bool)
    requires Enabled(s, e) && Runs(Step(s, e, isAsync), rest, isAsync)
    ensures Runs(s, [e] + rest, isAsync) && After(s, [e] + rest, isAsync) == After(Step(s, e, isAsync), rest, isAsync)
  {
    assert ([e] + rest)[1..] == rest;
  }

  /** The consumer alone brings everything that was queued into the file, in order. */
  lemma {:induction false} Flushed<L>(s: Log<L>, isAsync: bool) returns (events: seq<Event<L>>)
    requires Inv(s)
    ensures Runs(s, events, isAsync) && forall k :: 0 <= k < |events| ==> events[k].Take? || events[k].Drain?
    ensures var r := After(s, events, isAsync);
            && r.queued == s.queued == ViaQueue(r.file) && r.discarded == s.discarded && r.producers == s.producers
            && r.consumer.Empty? && r.ring.size == 0
    decreases s.ring.size, |Held(s.consumer)|
  {
    hide Inv, Contents, Valid;
    InvFacts(s);
    if s.consumer.Empty? && s.ring.size == 0 {
      events := [];
    } else {
      var e := if s.consumer.Holding? then Drain else Take;
      StepKeeps(s, e, isAsync);
      var rest := Flushed(Step(s, e, isAsync), isAsync);
      RunStep(s, e, rest, isAsync);
      events := [e] + rest;
    }
  }

  lemma InvFacts<L>(s: Log<L>)
    requires Inv(s)
    ensures |s.ring.slots| > 0 && |s.own| == |s.producers|
    ensures s.consumer.Empty? && s.ring.size == 0 ==> s.queued == ViaQueue(s.file)
  {
    hide Conserved, RoomUsed, ViaQueue;
  }

  /** What becomes of a line that a producer logs when nobody else moves: into the queue, or at the end of the file. */
  lemma Logged<L>(s: Log<L>, t: nat, line: L, isAsync: bool)
    requires Inv(s) && t < |s.producers| && s.producers[t].Idle?
    ensures var room := isAsync && |Contents(s.ring)| < |s.ring.slots|;
            var e := [Form(t, line)] + ([Test(t)] + ([if room then Push(t) else Write(t)] + []));
            && Runs(s, e, isAsync)
            && var r := After(s, e, isAsync);
               && r.issued == s.issued + [line] && t < |r.producers| && r.producers[t].Idle?
               && (if room then r.queued == s.queued + [line] && r.file == s.file
                   else r.queued == s.queued && r.file == s.file + [Entry(line, false)])
  {
    hide Conserved, RoomUsed, ViaQueue, Contents, Others;
    var room := isAsync && |Contents(s.ring)| < |s.ring.slots|;
    var last := if room then Push(t) else Write(t);
    var s1 := Step(s, Form(t, line), isAsync);
    var s2 := Step(s1, Test(t), isAsync);
    RunStep(s2, last, [], isAsync);
    RunStep(s1, Test(t), [last] + [], isAsync);
    RunStep(s, Form(t, line), [Test(t)] + ([last] + []), isAsync);
  }

  /**
  In every run a push is refused only if, since the test, other producers have pushed as many lines as there was
  room for.
  */
  lemma RefusedOnlyIfFilled<L>(slots: seq<L>, producers: nat, events: seq<Event<L>>, isAsync: bool, t: nat)
    requires slots != [] && Runs(Start(slots, producers), events, isAsync)
    requires var s := After(Start(slots, producers), events, isAsync);
             Enabled(s, Push(t)) && s.ring.size >= |s.ring.slots|
    ensures var s := After(Start(slots, producers), events, isAsync);
            Others(s, t) - s.producers[t].seen >= s.producers[t].room >= 1
  {
    StartInv(slots, producers);
    RunKeeps(Start(slots, producers), events, isAsync);
    assert RoomUsed(After(Start(slots, producers), events, isAsync), t);
  }

  /** With one producer no line is lost. */
  lemma AloneLosesNone<L>(slots: seq<L>, events: seq<Event<L>>, isAsync: bool)
    requires slots != [] && Runs(Start(slots, 1), events, isAsync)
    ensures After(Start(slots, 1), events, isAsync).discarded == []
  {
    StartInv(slots, 1);
    RunKeeps(Start(slots, 1), events, isAsync);
  }

  /** Of two producers that have passed the test while one slot is free, the second one to push loses its line. */
  lemma SecondIsLost<L>(s: Log<L>, t: nat, u: nat, isAsync: bool)
    requires Inv(s) && t < |s.producers| && u < |s.producers| && t != u
    requires s.producers[t].ToPush? && s.producers[u].ToPush? && s.ring.size + 1 == |s.ring.slots|
    ensures Runs(s, [Push(t), Push(u)], isAsync)
    ensures After(s, [Push(t), Push(u)], isAsync).discarded == s.discarded + [s.producers[u].line]
  {
    var e: seq<Event<L>> := [Push(t), Push(u)];
    var s1 := Step(s, e[0], isAsync);
    var s2 := Step(s1, e[1], isAsync);
    assert e[1..] == [Push(u)] && e[1..][1..] == [];
    assert Runs(s2, [], isAsync);
    assert Runs(s1, e[1..], isAsync);
    assert After(s1, e[1..], isAsync) == s2;
  }
}
