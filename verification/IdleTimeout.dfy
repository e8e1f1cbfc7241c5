/**
Idle timeouts over whole runs of the event loop: which connections the timer list closes, and when.

A worker that cannot answer a request closes the connection and leaves its timer in the list. If the descriptor is
accepted again before that timer expires, two timers in the list are for the same descriptor.
*/
module IdleTimeout {
  import opened SourceVersion
  import opened TimerTable

  const TIMESLOT := 5
  const LIFETIME := 3 * TIMESLOT

  /**
  What happens to the timers: a connection is accepted, is active, is closed by the event loop, is closed by a
  worker, or the alarm goes off.
  */
  datatype Event =
    | Accept(fd: int, now: int)
    | Active(fd: int, now: int)
    | Close(fd: int, now: int)
    | WorkerClose(fd: int, now: int)
    | Alarm(now: int)

  /**
  table is the timer list; current is which timer users_timer has for a descriptor; last is when each open
  connection was last active; made is how many timers there have been.
  */
  datatype Timers = Timers(table: seq<Entry<Owner>>, current: map<int, Owner>, last: map<int, int>,
                           now: int, lastAlarm: int, made: nat)

  const INITIAL := Timers([], map[], map[], 0, 0, 0)

  function IndexOf(t: seq<Entry<Owner>>, o: Owner): (i: nat)
    ensures i <= |t|
    ensures i < |t| ==> t[i].key == o
    ensures forall j :: 0 <= j < i ==> t[j].key != o
  {
    if t == [] || t[0].key == o then 0 else 1 + IndexOf(t[1..], o)
  }

  ghost predicate HasTimer(t: seq<Entry<Owner>>, o: Owner) {
    exists i :: 0 <= i < |t| && t[i].key == o
  }

  /** The descriptors that the timers of a table are for. */
  function Fds(t: seq<Entry<Owner>>): (s: set<int>) {
    set x | x in t :: x.key.fd
  }

  /**
  A descriptor is accepted only when it is not open, and closed only when it is. Activity may be noted after a
  worker has closed the connection: its timer is in the list all the same.
  */
  ghost predicate Enabled(s: Timers, e: Event) {
    && s.now <= e.now
    && match e
       case Accept(fd, _) => fd !in s.last
       case Active(fd, _) => fd in s.current && HasTimer(s.table, s.current[fd])
       case Close(fd, _) => fd in s.last && fd in s.current
       case WorkerClose(fd, _) => fd in s.last
       case Alarm(_) => true
  }

  ghost function Step(ver: Version, s: Timers, e: Event): Timers
    requires Enabled(s, e)
  {
    match e
    case Accept(fd, now) =>
      var o := Owner(fd, s.made);
      s.(table := Insert(s.table, Entry(o, now + LIFETIME)), current := s.current[fd := o],
         last := s.last[fd := now], now := now, made := s.made + 1)
    case Active(fd, now) =>
      var o := s.current[fd];
      s.(table := Touched(ver, s.table, o, now), last := if fd in s.last then s.last[fd := now] else s.last, now := now)
    case Close(fd, now) =>
      var i := IndexOf(s.table, s.current[fd]);
      s.(table := if i < |s.table| then RemoveAt(s.table, i) else s.table, last := s.last - {fd}, now := now)
    case WorkerClose(fd, now) => s.(last := s.last - {fd}, now := now)
    case Alarm(now) =>
      s.(table := Unexpired(s.table, now), last := s.last - Fds(Expired(s.table, now)), now := now, lastAlarm := now)
  }

  /** The table after the timer of o has been extended and moved. */
  ghost function Touched(ver: Version, t: seq<Entry<Owner>>, o: Owner, now: int): seq<Entry<Owner>>
    requires HasTimer(t, o)
  {
    var i := IndexOf(t, o);
    Adjusted(ver, t[i := Entry(o, now + LIFETIME)], i)
  }

  /**
  The list is in the order of expiry; every open connection has the timer that users_timer knows, which expires
  LIFETIME after its last activity; and nothing that had expired at the last alarm is left.
  */
  ghost predicate Inv(s: Timers) {
    && DistinctKeys(s.table) && Sorted(s.table)
    && (forall x :: x in s.table ==> x.key.serial < s.made && s.lastAlarm < x.expire <= s.now + LIFETIME)
    && (forall fd :: fd in s.current ==> s.current[fd].fd == fd)
    && (forall fd :: fd in s.last ==> fd in s.current && InTable(s, fd))
    && (forall fd :: fd in s.last ==> s.last[fd] <= s.now)
    && s.lastAlarm <= s.now
  }

  /** The timer of an open connection is where it should be. */
  ghost predicate InTable(s: Timers, fd: int)
    requires fd in s.last && fd in s.current
  {
    Entry(s.current[fd], s.last[fd] + LIFETIME) in s.table
  }

  /** The timer is the one that users_timer knows, of a connection that is open. */
  ghost predicate IsCurrent(s: Timers, x: Entry<Owner>) {
    x.key.fd in s.last && x.key.fd in s.current && s.current[x.key.fd] == x.key
  }

  lemma InitialInv()
    ensures Inv(INITIAL) && NoneStale(INITIAL)
  {
  }

  lemma KeyAt(t: seq<Entry<Owner>>, x: Entry<Owner>)
    requires DistinctKeys(t) && x in t
    ensures HasTimer(t, x.key) && IndexOf(t, x.key) < |t| && t[IndexOf(t, x.key)] == x
    ensures forall j :: 0 <= j < |t| && j != IndexOf(t, x.key) ==> t[j].key != x.key
  {
    var j :| 0 <= j < |t| && t[j] == x;
    assert IndexOf(t, x.key) <= j;
  }

  lemma OpenHasTimer(s: Timers, fd: int)
    requires Inv(s) && fd in s.last
    ensures fd in s.current && s.current[fd].fd == fd && HasTimer(s.table, s.current[fd])
    ensures var i := IndexOf(s.table, s.current[fd]);
            i < |s.table| && s.table[i] == Entry(s.current[fd], s.last[fd] + LIFETIME)
    ensures s.last[fd] <= s.now && s.lastAlarm < s.last[fd] + LIFETIME
  {
    hide DistinctKeys, Sorted, IndexOf, HasTimer;
    KeyAt(s.table, Entry(s.current[fd], s.last[fd] + LIFETIME));
    assert Entry(s.current[fd], s.last[fd] + LIFETIME) in s.table;
  }

  /** A new deadline is no earlier than any in the list. */
  lemma NewDeadlineIsLatest(s: Timers, now: int)
    requires Inv(s) && s.now <= now
    ensures forall i :: 0 <= i < |s.table| ==> s.table[i].expire <= now + LIFETIME && s.table[i].key.serial < s.made
  {
    forall i | 0 <= i < |s.table|
      ensures s.table[i].expire <= now + LIFETIME && s.table[i].key.serial < s.made
    {
      assert s.table[i] in s.table;
    }
  }

  lemma AppendAtEnd<K>(t: seq<Entry<K>>, x: Entry<K>)
    requires forall i :: 0 <= i < |t| ==> t[i].expire <= x.expire
    ensures Insert(t, x) == t + [x]
  {
    RankIs(t, x.expire, |t|);
  }

  /** The timer of a connection that is accepted goes to the end of the list. */
  lemma AcceptAtEnd(ver: Version, s: Timers, fd: int, now: int)
    requires Inv(s) && Enabled(s, Accept(fd, now))
    ensures Step(ver, s, Accept(fd, now)).table == s.table + [Entry(Owner(fd, s.made), now + LIFETIME)]
  {
    hide Insert;
    NewDeadlineIsLatest(s, now);
    AppendAtEnd(s.table, Entry(Owner(fd, s.made), now + LIFETIME));
  }

  lemma ExtendedByActivity(t: seq<Entry<Owner>>, i: nat, x: Entry<Owner>)
    requires Sorted(t) && i < |t| && (forall j :: 0 <= j < |t| ==> t[j].expire <= x.expire)
    ensures Extended(t[i := x], i)
    ensures RemoveAt(t[i := x], i) == RemoveAt(t, i)
    ensures Moves(t[i := x], i) <==> i + 1 < |t|
  {
  }

  lemma RemainingEarlier<K>(t: seq<Entry<K>>, i: nat, e: int)
    requires i < |t| && forall j :: 0 <= j < |t| ==> t[j].expire <= e
    ensures forall j :: 0 <= j < |t| - 1 ==> RemoveAt(t, i)[j].expire <= e
  {
    var u := RemoveAt(t, i);
    assert forall j :: 0 <= j < |u| ==> u[j] == t[if j < i then j else j + 1];
  }

  /** The timer of an active connection goes to the end of the list, wherever it was. */
  lemma ActiveAtEnd(s: Timers, fd: int, now: int)
    requires Inv(s) && Enabled(s, Active(fd, now))
    ensures IndexOf(s.table, s.current[fd]) < |s.table|
    ensures Step(Repaired, s, Active(fd, now)).table ==
            RemoveAt(s.table, IndexOf(s.table, s.current[fd])) + [Entry(s.current[fd], now + LIFETIME)]
  {
    hide RemoveAt, Insert, Adjusted, Extended, Moves, IndexOf, Sorted, DistinctKeys;
    var o := s.current[fd];
    var i, x := IndexOf(s.table, o), Entry(o, now + LIFETIME);
    NewDeadlineIsLatest(s, now);
    ExtendedByActivity(s.table, i, x);
    AdjustIsReinsert(s.table[i := x], i);
    RemainingEarlier(s.table, i, x.expire);
    AppendAtEnd(RemoveAt(s.table, i), x);
  }

  // ---------- Every step keeps the invariant ----------

  lemma AppendKeeps(t: seq<Entry<Owner>>, x: Entry<Owner>)
    requires DistinctKeys(t) && Sorted(t)
    requires forall i :: 0 <= i < |t| ==> t[i].expire <= x.expire && t[i].key != x.key
    ensures DistinctKeys(t + [x]) && Sorted(t + [x])
    ensures forall y :: y in t + [x] <==> y in t || y == x
  {
  }

  lemma RemoveKeeps(t: seq<Entry<Owner>>, i: nat)
    requires DistinctKeys(t) && Sorted(t) && i < |t|
    ensures DistinctKeys(RemoveAt(t, i)) && Sorted(RemoveAt(t, i))
    ensures forall y :: y in RemoveAt(t, i) <==> y in t && y.key != t[i].key
  {
    var u := RemoveAt(t, i);
    assert forall j :: 0 <= j < |u| ==> u[j] == t[if j < i then j else j + 1];
    forall j | 0 <= j < |t| && j != i
      ensures t[j] in u
    {
      assert u[if j < i then j else j - 1] == t[j];
    }
  }

  lemma AcceptKeeps(ver: Version, s: Timers, fd: int, now: int)
    requires Inv(s) && Enabled(s, Accept(fd, now))
    ensures Inv(Step(ver, s, Accept(fd, now)))
  {
    hide Sorted, DistinctKeys, Insert;
    AcceptAtEnd(ver, s, fd, now);
    NewDeadlineIsLatest(s, now);
    AppendKeeps(s.table, Entry(Owner(fd, s.made), now + LIFETIME));
  }

  /** The table without the timer of o, and with that timer at the end. */
  lemma MovedToEnd(t: seq<Entry<Owner>>, o: Owner, now: int)
    requires DistinctKeys(t) && Sorted(t) && IndexOf(t, o) < |t|
    requires forall i :: 0 <= i < |t| ==> t[i].expire <= now + LIFETIME
    ensures var u := RemoveAt(t, IndexOf(t, o)) + [Entry(o, now + LIFETIME)];
            && DistinctKeys(u) && Sorted(u)
            && forall y :: y in u <==> (y in t && y.key != o) || y == Entry(o, now + LIFETIME)
  {
    hide Sorted, DistinctKeys, RemoveAt;
    var i := IndexOf(t, o);
    RemoveKeeps(t, i);
    RemainingEarlier(t, i, now + LIFETIME);
    var u := RemoveAt(t, i);
    forall j | 0 <= j < |u|
      ensures u[j].key != o
    {
      assert u[j] in u;
    }
    AppendKeeps(u, Entry(o, now + LIFETIME));
  }

  lemma ActiveKeeps(s: Timers, fd: int, now: int)
    requires Inv(s) && Enabled(s, Active(fd, now))
    ensures Inv(Step(Repaired, s, Active(fd, now)))
    ensures forall y :: y in Step(Repaired, s, Active(fd, now)).table <==>
                          (y in s.table && y.key != s.current[fd]) || y == Entry(s.current[fd], now + LIFETIME)
  {
    hide Sorted, DistinctKeys, RemoveAt, Touched, IndexOf;
    ActiveAtEnd(s, fd, now);
    NewDeadlineIsLatest(s, now);
    MovedToEnd(s.table, s.current[fd], now);
    var i := IndexOf(s.table, s.current[fd]);
    assert s.table[i] in s.table;
  }

  lemma CloseKeeps(ver: Version, s: Timers, fd: int, now: int)
    requires Inv(s) && Enabled(s, Close(fd, now))
    ensures Inv(Step(ver, s, Close(fd, now)))
    ensures forall y :: y in Step(ver, s, Close(fd, now)).table <==> y in s.table && y.key != s.current[fd]
  {
    hide Sorted, DistinctKeys, RemoveAt, IndexOf;
    OpenHasTimer(s, fd);
    RemoveKeeps(s.table, IndexOf(s.table, s.current[fd]));
  }

  lemma TailKeeps(t: seq<Entry<Owner>>, k: nat)
    requires Sorted(t) && DistinctKeys(t) && k <= |t|
    ensures Sorted(t[k..]) && DistinctKeys(t[k..])
  {
  }

  lemma RestKeeps(t: seq<Entry<Owner>>, now: int)
    requires Sorted(t) && DistinctKeys(t)
    ensures Sorted(Unexpired(t, now)) && DistinctKeys(Unexpired(t, now))
  {
    TailKeeps(t, Rank(t, now));
  }

  lemma FdOf(t: seq<Entry<Owner>>, x: Entry<Owner>)
    ensures x in t ==> x.key.fd in Fds(t)
  {
  }

  lemma AlarmKeeps(ver: Version, s: Timers, now: int)
    requires Inv(s) && s.now <= now
    ensures Inv(Step(ver, s, Alarm(now)))
  {
    hide Sorted, DistinctKeys, Expired, Unexpired, Fds;
    var t := Step(ver, s, Alarm(now));
    ExpiredExactly(s.table, now);
    RestKeeps(s.table, now);
    forall fd | fd in t.last
      ensures fd in t.current && InTable(t, fd)
    {
      var x := Entry(s.current[fd], s.last[fd] + LIFETIME);
      FdOf(Expired(s.table, now), x);
      assert x in s.table;
    }
  }

  /** Every event keeps the invariant in the repaired code, closes by workers included. */
  lemma StepKeeps(s: Timers, e: Event)
    requires Inv(s) && Enabled(s, e)
    ensures Inv(Step(Repaired, s, e))
  {
    match e
    case Accept(fd, now) => AcceptKeeps(Repaired, s, fd, now);
    case Active(fd, now) => ActiveKeeps(s, fd, now);
    case Close(fd, now) => CloseKeeps(Repaired, s, fd, now);
    case WorkerClose(fd, now) =>
    case Alarm(now) => AlarmKeeps(Repaired, s, now);
  }

  // ---------- What the alarm closes ----------

  predicate Idle(s: Timers, fd: int, now: int)
    requires fd in s.last
  {
    s.last[fd] + LIFETIME <= now
  }

  /** An expired timer, left by an earlier connection, is for a descriptor that is open again and not idle. */
  ghost predicate ClosesTooEarly(s: Timers, now: int) {
    exists x :: x in s.table && x.expire <= now && x.key.fd in s.last && !IsCurrent(s, x) && !Idle(s, x.key.fd, now)
  }

  /** The alarm closes every idle connection, and any other open one exactly if an earlier timer is for it. */
  lemma AlarmCloses(ver: Version, s: Timers, now: int, fd: int)
    requires Inv(s) && s.now <= now && fd in s.last
    ensures fd !in Step(ver, s, Alarm(now)).last <==>
            Idle(s, fd, now) || exists x :: x in s.table && x.expire <= now && x.key.fd == fd && !IsCurrent(s, x)
  {
    hide Sorted, DistinctKeys, Expired, IndexOf;
    ExpiredExactly(s.table, now);
    OpenHasTimer(s, fd);
    var y := s.table[IndexOf(s.table, s.current[fd])];
    assert y in s.table && y.key.fd == fd;
    forall x | x in s.table && x.key.fd == fd && IsCurrent(s, x)
      ensures x == y
    {
      KeyAt(s.table, x);
    }
  }

  /** So it closes exactly the idle ones if and only if no timer of an earlier connection closes one too early. */
  lemma AlarmExactly(ver: Version, s: Timers, now: int)
    requires Inv(s) && s.now <= now
    ensures Step(ver, s, Alarm(now)).last.Keys <= s.last.Keys
    ensures (forall fd :: fd in s.last ==> (fd !in Step(ver, s, Alarm(now)).last <==> Idle(s, fd, now))) <==>
            !ClosesTooEarly(s, now)
  {
    hide Inv, Step, IsCurrent;
    var r := Step(ver, s, Alarm(now));
    forall fd | fd in s.last
      ensures fd !in r.last <==>
              Idle(s, fd, now) || exists x :: x in s.table && x.expire <= now && x.key.fd == fd && !IsCurrent(s, x)
    {
      AlarmCloses(ver, s, now, fd);
    }
    AlarmOpensNone(ver, s, now);
  }

  lemma AlarmOpensNone(ver: Version, s: Timers, now: int)
    requires Enabled(s, Alarm(now))
    ensures Step(ver, s, Alarm(now)).last.Keys <= s.last.Keys
  {
  }

  /** Every timer in the list is that of an open connection. */
  ghost predicate NoneStale(s: Timers) {
    forall x :: x in s.table ==> IsCurrent(s, x)
  }

  /** Only a worker's close leaves a timer behind. */
  lemma StepKeepsNoneStale(s: Timers, e: Event)
    requires Inv(s) && Enabled(s, e) && NoneStale(s) && !e.WorkerClose?
    ensures NoneStale(Step(Repaired, s, e))
  {
    hide Sorted, DistinctKeys, Rank, Insert, Touched;
    match e
    case Accept(fd, now) => AcceptAtEnd(Repaired, s, fd, now);
    case Active(fd, now) => ActiveKeeps(s, fd, now);
    case Close(fd, now) => CloseKeeps(Repaired, s, fd, now);
    case Alarm(now) => AlarmLeavesCurrent(s, now);
  }

  lemma AlarmLeavesCurrent(s: Timers, now: int)
    requires Inv(s) && NoneStale(s) && s.now <= now
    ensures NoneStale(Step(Repaired, s, Alarm(now)))
  {
    hide Sorted, DistinctKeys, Expired, Unexpired, IndexOf;
    ExpiredExactly(s.table, now);
    forall x | x in Unexpired(s.table, now)
      ensures x.key.fd !in Fds(Expired(s.table, now))
    {
      KeyAt(s.table, x);
      forall y | y in Expired(s.table, now)
        ensures y.key.fd != x.key.fd
      {
        KeyAt(s.table, y);
      }
    }
  }

  /** Without closes by workers the alarm closes exactly the idle connections. */
  lemma AlarmExactlyIdle(ver: Version, s: Timers, now: int)
    requires Inv(s) && NoneStale(s) && s.now <= now
    ensures forall fd :: fd in s.last ==> (fd !in Step(ver, s, Alarm(now)).last <==> Idle(s, fd, now))
  {
    hide Inv, Step;
    AlarmExactly(ver, s, now);
  }

  /**
  From every state: if a worker closes a connection and its descriptor is accepted again, an alarm between the
  deadlines of the two connections closes the second one, which has not been idle for LIFETIME.
  */
  lemma ReopenedIsClosedEarly(s: Timers, fd: int, closed: int, reopened: int, alarm: int)
    requires Inv(s) && fd in s.last && s.now <= closed <= reopened <= alarm
    requires s.last[fd] + LIFETIME <= alarm < reopened + LIFETIME
    ensures Enabled(s, WorkerClose(fd, closed))
    ensures var s1 := Step(Repaired, s, WorkerClose(fd, closed));
            && Enabled(s1, Accept(fd, reopened))
            && var s2 := Step(Repaired, s1, Accept(fd, reopened));
               && Inv(s2) && !Idle(s2, fd, alarm) && ClosesTooEarly(s2, alarm)
               && fd !in Step(Repaired, s2, Alarm(alarm)).last
  {
    hide Sorted, DistinctKeys, Insert, Unexpired, Expired, IndexOf;
    OpenHasTimer(s, fd);
    var s1 := Step(Repaired, s, WorkerClose(fd, closed));
    StepKeeps(s, WorkerClose(fd, closed));
    AcceptKeeps(Repaired, s1, fd, reopened);
    AcceptAtEnd(Repaired, s1, fd, reopened);
    var s2 := Step(Repaired, s1, Accept(fd, reopened));
    var x := Entry(s.current[fd], s.last[fd] + LIFETIME);
    assert x in s.table && x in s2.table && x.key.serial < s.made;
    AlarmCloses(Repaired, s2, alarm, fd);
  }

  /** For example: accepted at 0, closed by a worker, accepted again at 14, closed by the alarm at 15. */
  lemma ClosedAfterOneSecond()
    ensures var s0 := Step(Repaired, INITIAL, Accept(5, 0));
            var s1 := Step(Repaired, s0, WorkerClose(5, 0));
            var s2 := Step(Repaired, s1, Accept(5, 14));
            Enabled(s2, Alarm(15)) && s2.last[5] == 14 && 5 !in Step(Repaired, s2, Alarm(15)).last
  {
    hide Inv;
    InitialInv();
    AcceptKeeps(Repaired, INITIAL, 5, 0);
    ReopenedIsClosedEarly(Step(Repaired, INITIAL, Accept(5, 0)), 5, 0, 14, 15);
  }

  // ---------- Whole runs ----------

  /** A run in which every event comes at most gap after the last alarm before it. */
  ghost predicate Timely(ver: Version, s: Timers, events: seq<Event>, gap: nat)
    decreases |events|
  {
    events != [] ==>
      && Enabled(s, events[0]) && events[0].now - s.lastAlarm <= gap
      && Timely(ver, Step(ver, s, events[0]), events[1..], gap)
  }

  ghost function Run(ver: Version, s: Timers, events: seq<Event>, gap: nat): Timers
    requires Timely(ver, s, events, gap)
    decreases |events|
  {
    if events == [] then s else Run(ver, Step(ver, s, events[0]), events[1..], gap)
  }

  /**
  After every run whose alarms are at most gap apart, with closes by workers anywhere in it: the list has the open
  connections in the order of their last activity, and none of them has been idle for as long as LIFETIME plus gap.
  */
  lemma {:induction false} NoneIdleTooLong(s: Timers, events: seq<Event>, gap: nat)
    requires Inv(s) && Timely(Repaired, s, events, gap) && s.now - s.lastAlarm <= gap
    ensures var t := Run(Repaired, s, events, gap);
            && Inv(t)
            && (forall i, j :: 0 <= i < j < |t.table| && IsCurrent(t, t.table[i]) && IsCurrent(t, t.table[j]) ==>
                 t.last[t.table[i].key.fd] <= t.last[t.table[j].key.fd])
            && (forall fd :: fd in t.last ==> t.now - t.last[fd] < LIFETIME + gap)
    decreases |events|
  {
    hide Inv, Step, IsCurrent;
    if events == [] {
      forall i, j | 0 <= i < j < |s.table| && IsCurrent(s, s.table[i]) && IsCurrent(s, s.table[j])
        ensures s.table[i].key.fd in s.last && s.table[j].key.fd in s.last
        ensures s.last[s.table[i].key.fd] <= s.last[s.table[j].key.fd]
      {
        InOrder(s, i, j);
      }
      forall fd | fd in s.last
        ensures s.now - s.last[fd] < LIFETIME + gap
      {
        OpenHasTimer(s, fd);
      }
    } else {
      StepKeeps(s, events[0]);
      StepTimes(s, events[0]);
      NoneIdleTooLong(Step(Repaired, s, events[0]), events[1..], gap);
    }
  }

  lemma StepTimes(s: Timers, e: Event)
    requires Enabled(s, e)
    ensures Step(Repaired, s, e).now == e.now
    ensures Step(Repaired, s, e).lastAlarm == if e.Alarm? then e.now else s.lastAlarm
  {
  }

  lemma InOrder(s: Timers, i: nat, j: nat)
    requires Inv(s) && i < j < |s.table| && IsCurrent(s, s.table[i]) && IsCurrent(s, s.table[j])
    ensures s.table[i].key.fd in s.last && s.table[j].key.fd in s.last
    ensures s.last[s.table[i].key.fd] <= s.last[s.table[j].key.fd]
  {
    hide DistinctKeys, IndexOf;
    OpenHasTimer(s, s.table[i].key.fd);
    OpenHasTimer(s, s.table[j].key.fd);
    KeyAt(s.table, s.table[i]);
    KeyAt(s.table, s.table[j]);
  }

  /** In a run without closes by workers, no timer is ever left behind. */
  lemma {:induction false} NeverStale(s: Timers, events: seq<Event>, gap: nat)
    requires Inv(s) && NoneStale(s) && Timely(Repaired, s, events, gap)
    requires forall k :: 0 <= k < |events| ==> !events[k].WorkerClose?
    ensures Inv(Run(Repaired, s, events, gap)) && NoneStale(Run(Repaired, s, events, gap))
    decreases |events|
  {
    hide Inv, NoneStale, Step;
    if events != [] {
      StepKeeps(s, events[0]);
      StepKeepsNoneStale(s, events[0]);
      NeverStale(Step(Repaired, s, events[0]), events[1..], gap);
    }
  }

  // ---------- The code as written ----------

  /** The activity that cuts the list: of the connection whose timer is the first of three or more. */
  ghost predicate CutsList(s: Timers, e: Event)
    requires Enabled(s, e)
  {
    e.Active? && |s.table| >= 3 && s.table[0].key == s.current[e.fd]
  }

  /** As written, exactly that activity changes the list in another way: only two timers are left in it. */
  lemma AsWrittenStep(s: Timers, e: Event)
    requires Inv(s) && Enabled(s, e)
    ensures Step(AsWritten, s, e) == Step(Repaired, s, e) <==> !CutsList(s, e)
    ensures CutsList(s, e) ==>
              Step(AsWritten, s, e) ==
              Step(Repaired, s, e).(table := [s.table[1], Entry(s.current[e.fd], e.now + LIFETIME)])
  {
    if e.Active? {
      AsWrittenActive(s, e.fd, e.now);
    }
  }

  lemma AsWrittenActive(s: Timers, fd: int, now: int)
    requires Inv(s) && Enabled(s, Active(fd, now))
    ensures var i, x := IndexOf(s.table, s.current[fd]), Entry(s.current[fd], now + LIFETIME);
            && (Touched(AsWritten, s.table, s.current[fd], now) == Touched(Repaired, s.table, s.current[fd], now) <==>
               !(i == 0 && |s.table| >= 3))
            && (i == 0 && |s.table| >= 3 ==> Touched(AsWritten, s.table, s.current[fd], now) == [s.table[1], x])
    ensures |s.table| >= 3 ==> (IndexOf(s.table, s.current[fd]) == 0 <==> s.table[0].key == s.current[fd])
  {
    hide Sorted, DistinctKeys, Extended, RemoveAt, Insert;
    var o := s.current[fd];
    var i, x := IndexOf(s.table, o), Entry(o, now + LIFETIME);
    ReplacedKeepsKeys(s.table, i, x);
    NewDeadlineIsLatest(s, now);
    ExtendedByActivity(s.table, i, x);
    AdjustAsWritten(s.table[i := x], i);
  }

  lemma ReplacedKeepsKeys(t: seq<Entry<Owner>>, i: nat, x: Entry<Owner>)
    ensures DistinctKeys(t) && i < |t| && t[i].key == x.key ==> DistinctKeys(t[i := x])
  {
  }

  /** It breaks the invariant if and only if it takes the timer of an open connection out of the list. */
  lemma AsWrittenKeeps(s: Timers, e: Event)
    requires Inv(s) && Enabled(s, e)
    ensures Inv(Step(AsWritten, s, e)) <==>
            !(CutsList(s, e) && exists j :: 2 <= j < |s.table| && IsCurrent(s, s.table[j]))
  {
    hide Inv, Step;
    AsWrittenStep(s, e);
    StepKeeps(s, e);
    if CutsList(s, e) {
      CutKeeps(s, e.fd, e.now);
    }
  }

  lemma CutKeeps(s: Timers, fd: int, now: int)
    requires Inv(s) && Enabled(s, Active(fd, now)) && CutsList(s, Active(fd, now))
    ensures var t := Step(Repaired, s, Active(fd, now)).(table := [s.table[1], Entry(s.current[fd], now + LIFETIME)]);
            Inv(t) <==> !exists j :: 2 <= j < |s.table| && IsCurrent(s, s.table[j])
  {
    hide Touched, IndexOf;
    var e, x := Active(fd, now), Entry(s.current[fd], now + LIFETIME);
    var t := Step(Repaired, s, e).(table := [s.table[1], x]);
    NewDeadlineIsLatest(s, now);
    assert s.table[0] in s.table && s.table[1] in s.table;
    if exists j :: 2 <= j < |s.table| && IsCurrent(s, s.table[j]) {
      LostTimer(s, fd, now);
    } else {
      forall g | g in t.last
        ensures g in t.current && InTable(t, g)
      {
        if g != fd {
          OpenHasTimer(s, g);
          var i := IndexOf(s.table, s.current[g]);
          assert IsCurrent(s, s.table[i]) && i < 2 && s.table[0].key != s.current[g];
        }
      }
    }
  }

  /** After a cut, an open connection whose timer was third or later has no timer in the list. */
  lemma LostTimer(s: Timers, fd: int, now: int)
    requires Inv(s) && Enabled(s, Active(fd, now)) && CutsList(s, Active(fd, now))
    ensures var t := Step(Repaired, s, Active(fd, now)).(table := [s.table[1], Entry(s.current[fd], now + LIFETIME)]);
            forall j :: 2 <= j < |s.table| && IsCurrent(s, s.table[j]) ==>
              && s.table[j].key.fd in t.last && s.table[j].key.fd in t.current
              && !HasTimer(t.table, t.current[s.table[j].key.fd]) && !Inv(t)
  {
    hide Touched, IndexOf, Sorted;
    var t := Step(Repaired, s, Active(fd, now)).(table := [s.table[1], Entry(s.current[fd], now + LIFETIME)]);
    forall j | 2 <= j < |s.table| && IsCurrent(s, s.table[j])
      ensures s.table[j].key.fd in t.last && s.table[j].key.fd in t.current
      ensures !HasTimer(t.table, t.current[s.table[j].key.fd]) && !Inv(t)
    {
      var g := s.table[j].key.fd;
      assert s.table[j].key != s.table[0].key && s.table[j].key != s.table[1].key;
      assert !HasTimer(t.table, t.current[g]);
      if Inv(t) {
        OpenHasTimer(t, g);
      }
    }
  }
}
