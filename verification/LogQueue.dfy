/**
The blocking log queue: the ring in its array, one method for each section that runs under the mutex, and the
monitor that any number of threads use.
*/
module LogQueue {
  import opened LogRing

  class LogQueue<T(0)> {
    const items: array<T>
    var size: nat
    const maxSize: nat
    var front: int
    var back: int

    ghost function View(): Ring<T>
      reads this, items
    {
      Ring(items[..], size, front, back)
    }

    ghost predicate Good()
      reads this, items
    {
      maxSize == items.Length && Valid(View())
    }

    constructor (maxSize: nat)
      requires maxSize > 0
      ensures Good() && Contents(View()) == [] && fresh(items) && this.maxSize == maxSize
    {
      this.maxSize := maxSize;
      items := new T[maxSize];
      size, front, back := 0, -1, -1;
    }

    method Clear()
      requires Good()
      modifies this
      ensures Good() && View() == Emptied(old(View())) && Contents(View()) == []
    {
      size, front, back := 0, -1, -1;
    }

    method Full() returns (full: bool)
      requires Good()
      ensures full <==> |Contents(View())| == maxSize
    {
      return size >= maxSize;
    }

    method Back() returns (ok: bool, value: T)
      requires Good()
      ensures ok <==> Contents(View()) != []
      ensures ok ==> value == Contents(View())[|Contents(View())| - 1]
    {
      value := *;
      if size == 0 {
        return false, value;
      }
      BackIsLast(View());
      return true, items[back];
    }

    method Push(item: T) returns (ok: bool)
      requires Good()
      modifies this, items
      ensures Good() && View() == Pushed(old(View()), item)
      ensures ok <==> |Contents(old(View()))| < maxSize
      ensures Contents(View()) == if ok then Contents(old(View())) + [item] else Contents(old(View()))
    {
      PushAppends(View(), item);
      if size >= maxSize {
        return false;
      }
      back := (back + 1) % maxSize;
      items[back] := item;
      size := size + 1;
      return true;
    }

    /** What both forms of pop do once they find that the queue is not empty. */
    method Take() returns (item: T)
      requires Good() && Contents(View()) != []
      modifies this
      ensures Good() && View() == Popped(old(View()))
      ensures [item] + Contents(View()) == Contents(old(View()))
    {
      PopTakesFirst(View());
      front := (front + 1) % maxSize;
      item := items[front];
      size := size - 1;
    }
  }

  // ---------- The monitor ----------

  /**
  Asleep: waiting for the condition variable; Awake: notified, or woken for no reason, and about to take the
  mutex again. timed says which form of pop the thread is in.
  */
  datatype Pc = Running | Asleep(timed: bool) | Awake(timed: bool)

  /**
  pushed and popped record, in order, the items that push accepted and that pop returned; what clear drops is
  taken out of pushed.
  */
  datatype Monitor<T> = Monitor(ring: Ring<T>, pcs: seq<Pc>, pushed: seq<T>, popped: seq<T>)

  datatype Event<T> =
    | Push(t: nat, item: T)
    | Pop(t: nat, timed: bool)
    | Resume(t: nat)
    | WakeUp(t: nat)
    | GiveUp(t: nat)
    | Clear(t: nat)

  function Start<T>(slots: seq<T>, threads: nat): Monitor<T> {
    Monitor(Ring(slots, 0, -1, -1), seq(threads, t => Running), [], [])
  }

  predicate Enabled<T>(s: Monitor<T>, e: Event<T>) {
    && e.t < |s.pcs| && |s.ring.slots| > 0
    && match e
       case Push(t, _) => s.pcs[t].Running?
       case Pop(t, _) => s.pcs[t].Running?
       case Resume(t) => s.pcs[t].Awake?
       case WakeUp(t) => s.pcs[t].Asleep?
       case GiveUp(t) => !s.pcs[t].Running?
       case Clear(t) => s.pcs[t].Running?
  }

  /** broadcast */
  function Woken(pcs: seq<Pc>): (r: seq<Pc>)
    ensures |r| == |pcs|
    ensures forall t :: 0 <= t < |r| ==> !r[t].Asleep?
  {
    seq(|pcs|, t requires 0 <= t < |pcs| => if pcs[t].Asleep? then Awake(pcs[t].timed) else pcs[t])
  }

  function Taken<T>(s: Monitor<T>, t: nat): Monitor<T>
    requires t < |s.pcs| && |s.ring.slots| > 0 && s.ring.size > 0
  {
    s.(ring := Popped(s.ring), pcs := s.pcs[t := Running], popped := s.popped + [First(s.ring)])
  }

  /**
  Push, also when it fails, wakes all threads. A thread that finds nothing when it resumes sleeps again, or
  gives up if it is in the timed form, which does not look twice. GiveUp: the wait itself fails or times out.
  */
  function Step<T>(s: Monitor<T>, e: Event<T>): (r: Monitor<T>)
    requires Enabled(s, e)
    ensures |r.pcs| == |s.pcs| && |r.ring.slots| == |s.ring.slots|
  {
    match e
    case Push(t, item) =>
      if s.ring.size >= |s.ring.slots| then s.(pcs := Woken(s.pcs))
      else s.(ring := Pushed(s.ring, item), pcs := Woken(s.pcs), pushed := s.pushed + [item])
    case Pop(t, timed) =>
      if s.ring.size > 0 then Taken(s, t) else s.(pcs := s.pcs[t := Asleep(timed)])
    case Resume(t) =>
      if s.ring.size > 0 then Taken(s, t)
      else s.(pcs := s.pcs[t := if s.pcs[t].timed then Running else Asleep(false)])
    case WakeUp(t) => s.(pcs := s.pcs[t := Awake(s.pcs[t].timed)])
    case GiveUp(t) => s.(pcs := s.pcs[t := Running])
    case Clear(t) => s.(ring := Emptied(s.ring), pushed := s.popped)
  }

  ghost predicate Inv<T>(s: Monitor<T>) {
    && Valid(s.ring)
    && s.pushed == s.popped + Contents(s.ring)
    && forall t :: 0 <= t < |s.pcs| && s.pcs[t].Asleep? ==> s.ring.size == 0
  }

  lemma StepKeeps<T>(s: Monitor<T>, e: Event<T>)
    requires Inv(s) && Enabled(s, e)
    ensures Inv(Step(s, e))
  {
    hide Contents, Valid;
    EmptiedIsEmpty(s.ring);
    if e.Push? {
      PushAppends(s.ring, e.item);
    }
    if s.ring.size > 0 {
      PopTakesFirst(s.ring);
    }
  }

  /**
  A thread that calls pop, or resumes in it, comes back with the next item if there is one. On an empty ring pop
  goes to sleep, the untimed form sleeps again when it is woken, and the timed form comes back with nothing.
  */
  lemma PopGets<T>(s: Monitor<T>, e: Event<T>)
    requires Inv(s) && Enabled(s, e) && (e.Pop? || e.Resume?)
    ensures var r := Step(s, e);
            if |s.popped| < |s.pushed| then
              r.popped == s.popped + [s.pushed[|s.popped|]] && r.pushed == s.pushed && r.pcs[e.t].Running?
            else
              && r.popped == s.popped && r.pushed == s.pushed
              && (e.Pop? ==> r.pcs[e.t] == Asleep(e.timed))
              && (e.Resume? ==> if s.pcs[e.t].timed then r.pcs[e.t].Running? else r.pcs[e.t] == Asleep(false))
  {
    hide Contents, Valid;
    if s.ring.size > 0 {
      PopTakesFirst(s.ring);
    }
  }

  /** Push accepts its item exactly if the ring has room, and leaves nobody asleep. */
  lemma PushWakes<T>(s: Monitor<T>, e: Event<T>)
    requires Inv(s) && Enabled(s, e) && e.Push?
    ensures var r := Step(s, e);
            && r.pushed == (if |s.pushed| - |s.popped| < |s.ring.slots| then s.pushed + [e.item] else s.pushed)
            && r.popped == s.popped
            && forall t :: 0 <= t < |r.pcs| ==> !r.pcs[t].Asleep? && (s.pcs[t].Running? ==> r.pcs[t].Running?)
  {
    hide Pushed;
  }

  ghost predicate Runs<T>(s: Monitor<T>, events: seq<Event<T>>)
    decreases |events|
  {
    events != [] ==> Enabled(s, events[0]) && Runs(Step(s, events[0]), events[1..])
  }

  ghost function After<T>(s: Monitor<T>, events: seq<Event<T>>): (r: Monitor<T>)
    requires Runs(s, events)
    ensures |r.pcs| == |s.pcs| && |r.ring.slots| == |s.ring.slots|
    decreases |events|
  {
    if events == [] then s else After(Step(s, events[0]), events[1..])
  }

  lemma {:induction false} RunKeeps<T>(s: Monitor<T>, events: seq<Event<T>>)
    requires Inv(s) && Runs(s, events)
    ensures Inv(After(s, events))
    decreases |events|
  {
    if events != [] {
      StepKeeps(s, events[0]);
      RunKeeps(Step(s, events[0]), events[1..]);
    }
  }

  /**
  In every run of any number of threads: what has been popped is a prefix of what has been pushed, the ring
  holds the rest and never more than fits, and nobody sleeps unnotified while there is an item.
  */
  lemma FirstInFirstOut<T>(slots: seq<T>, threads: nat, events: seq<Event<T>>)
    requires slots != [] && Runs(Start(slots, threads), events)
    ensures var s := After(Start(slots, threads), events);
            && s.popped <= s.pushed && s.pushed[|s.popped|..] == Contents(s.ring)
            && |Contents(s.ring)| <= |slots|
            && (Contents(s.ring) != [] ==> forall t :: 0 <= t < |s.pcs| ==> !s.pcs[t].Asleep?)
  {
    var s := After(Start(slots, threads), events);
    EmptiedIsEmpty(Ring(slots, 0, -1, -1));
    RunKeeps(Start(slots, threads), events);
    assert s.pushed == s.popped + Contents(s.ring);
  }

  lemma RunStep<T>(s: Monitor<T>, e: Event<T>, rest: seq<Event<T>>)
    requires Enabled(s, e) && Runs(Step(s, e), rest)
    ensures Runs(s, [e] + rest) && After(s, [e] + rest) == After(Step(s, e), rest)
  {
    assert ([e] + rest)[1..] == rest;
  }

  lemma RunTwo<T>(s: Monitor<T>, e: Event<T>, f: Event<T>)
    requires Enabled(s, e) && Enabled(Step(s, e), f)
    ensures Runs(s, [e, f]) && After(s, [e, f]) == Step(Step(s, e), f)
  {
    hide Step, Enabled;
    RunStep(Step(s, e), f, []);
    assert [f] + [] == [f];
    RunStep(s, e, [f]);
    assert [e] + [f] == [e, f];
  }

  /**
  A wake-up without a push leaves the monitor as it was, except that the timed form comes back with nothing. So does a
  wait that fails.
  */
  lemma SpuriousWakeUp<T>(s: Monitor<T>, t: nat)
    requires Inv(s) && t < |s.pcs| && s.pcs[t].Asleep?
    ensures Runs(s, [WakeUp(t), Resume(t)])
    ensures After(s, [WakeUp(t), Resume(t)]) == if s.pcs[t].timed then s.(pcs := s.pcs[t := Running]) else s
    ensures Runs(s, [WakeUp(t), GiveUp(t)])
    ensures After(s, [WakeUp(t), GiveUp(t)]) == s.(pcs := s.pcs[t := Running])
  {
    RunTwo(s, WakeUp(t), Resume(t));
    RunTwo(s, WakeUp(t), GiveUp(t));
    assert s.pcs[t := s.pcs[t]] == s.pcs;
  }

  /** A waiter of either form gets the item of a push after which it is the first to resume. */
  lemma HandedOver<T>(s: Monitor<T>, waiter: nat, producer: nat, item: T)
    requires Inv(s) && waiter < |s.pcs| && producer < |s.pcs|
    requires s.pcs[waiter].Asleep? && s.pcs[producer].Running?
    ensures var e := [Event.Push(producer, item), Resume(waiter)];
            && Runs(s, e) && After(s, e).pcs[waiter].Running?
            && After(s, e).popped == s.popped + [item] && Contents(After(s, e).ring) == []
  {
    PushAppends(s.ring, item);
    var s1 := Step(s, Event.Push(producer, item));
    PopTakesFirst(s1.ring);
    RunTwo(s, Event.Push(producer, item), Resume(waiter));
  }

  /** After clear the next pop goes to sleep; nothing of what was in the ring is popped. */
  lemma Cleared<T>(s: Monitor<T>, t: nat, timed: bool)
    requires Inv(s) && t < |s.pcs| && |s.ring.slots| > 0 && s.pcs[t].Running?
    ensures Runs(s, [Clear(t), Pop(t, timed)])
    ensures var r := After(s, [Clear(t), Pop(t, timed)]);
            r.pcs[t] == Asleep(timed) && r.popped == s.popped == r.pushed && Contents(r.ring) == []
  {
    EmptiedIsEmpty(s.ring);
    RunTwo(s, Clear(t), Pop(t, timed));
  }

  /**
  A waiter that was notified of an item resumes without it if another thread takes it first: the timed form comes back
  with nothing, the untimed one sleeps again.
  */
  lemma ItemStolen<T>(s: Monitor<T>, waiter: nat, producer: nat, thief: nat, item: T)
    requires Inv(s) && waiter < |s.pcs| && producer < |s.pcs| && thief < |s.pcs|
    requires s.pcs[waiter].Asleep? && s.pcs[producer].Running? && s.pcs[thief].Running?
    ensures var e := [Event.Push(producer, item)] + [Pop(thief, false), Resume(waiter)];
            && Runs(s, e)
            && After(s, e).pcs[waiter] == (if s.pcs[waiter].timed then Running else s.pcs[waiter])
            && After(s, e).popped == s.popped + [item] && Contents(After(s, e).ring) == []
  {
    hide Contents, Valid;
    PushAppends(s.ring, item);
    var s1 := Step(s, Event.Push(producer, item));
    PopTakesFirst(s1.ring);
    RunTwo(s1, Pop(thief, false), Resume(waiter));
    RunStep(s, Event.Push(producer, item), [Pop(thief, false), Resume(waiter)]);
  }
}
