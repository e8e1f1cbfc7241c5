/**
The timers of the web server: users_timer has one timer for a descriptor, and the list may have others that earlier
connections have left. Each method is one of the events of IdleTimeout.
*/
module ServerTimers {
  import opened SourceVersion
  import opened TimerTable
  import opened TimerList
  import opened IdleTimeout

  class WebServer {
    const timerLst: SortTimerList
    var usersTimer: map<int, UtilTimer>
    ghost var last: map<int, int>
    ghost var now: int
    ghost var lastAlarm: int
    ghost var made: nat

    /** The node of users_timer is the one in the list, if the list has that timer. */
    ghost predicate Valid()
      reads this, timerLst, timerLst.spine
    {
      timerLst.Valid() && Finds(usersTimer, timerLst.spine) && Inv(View())
    }

    ghost function View(): Timers
      reads this, timerLst, timerLst.spine
    {
      Timers(timerLst.Table(), Users(usersTimer), last, now, lastAlarm, made)
    }

    constructor ()
      ensures Valid() && View() == INITIAL
      ensures fresh(timerLst)
    {
      timerLst := new SortTimerList();
      usersTimer, last, now, lastAlarm, made := map[], map[], 0, 0, 0;
      new;
      InitialInv();
      assert Users(usersTimer) == map[];
    }

    /** timer: the timer of an accepted connection, which expires three slots from now. */
    method Timer(ver: Version, connfd: int, cur: int)
      requires Valid() && Enabled(View(), Accept(connfd, cur))
      modifies this, timerLst, timerLst.spine
      ensures Valid() && View() == Step(ver, old(View()), Accept(connfd, cur))
    {
      hide Insert, Sorted, DistinctKeys, Inv, Linked, TableOf, Step, Finds, Users;
      hide SortTimerList.Valid, SortTimerList.Table;
      ghost var s := timerLst.spine;
      AcceptFacts(ver, View(), connfd, cur);
      var timer := new UtilTimer(connfd, made, cur + 3 * TIMESLOT);
      FoundWithNew(usersTimer, s, timer, made);
      usersTimer := usersTimer[connfd := timer];
      timerLst.AddTimer(timer);
      last, now, made := last[connfd := cur], cur, made + 1;
      FoundThrough(usersTimer, s + [timer], timerLst.spine);
    }

    /** The timer at place i is given a new expiry time, no earlier than before, and moved. */
    method Extend(ver: Version, timer: UtilTimer, ghost i: nat, expire: int)
      requires timerLst.Valid() && i < |timerLst.spine| && timer == timerLst.spine[i]
      requires Extended(timerLst.Table()[i := Entry(timer.User(), expire)], i)
      modifies timerLst, timerLst.spine
      ensures timerLst.Valid()
      ensures timerLst.Table() == Adjusted(ver, old(timerLst.Table())[i := Entry(timer.User(), expire)], i)
      ensures forall t :: t in timerLst.spine ==> t in old(timerLst.spine)
    {
      hide Adjusted, Sorted, Extended;
      ghost var before := timerLst.Table();
      timer.expire := expire;
      assert timerLst.Table() == before[i := Entry(timer.User(), expire)];
      timerLst.AdjustTimer(ver, timer, i);
    }

    /**
    adjust_timer: the timer of an active connection is extended and moved. The list stays well formed in both
    versions; as written, the timer of an open connection may be cut off.
    */
    method AdjustTimer(ver: Version, connfd: int, cur: int)
      requires Valid() && Enabled(View(), Active(connfd, cur))
      modifies this, timerLst, timerLst.spine
      ensures timerLst.Valid() && Finds(usersTimer, timerLst.spine)
      ensures View() == Step(ver, old(View()), Active(connfd, cur))
      ensures Valid() <==> ver == Repaired || !CutsOpen(old(View()), Active(connfd, cur))
    {
      hide Adjusted, Sorted, DistinctKeys, Inv, Linked, TableOf, Step, IndexOf, Extended, Finds, HasTimer, CutsOpen,
           Users;
      hide SortTimerList.Valid, SortTimerList.Table;
      ghost var s, i := timerLst.spine, IndexOf(timerLst.Table(), usersTimer[connfd].User());
      ActivityFacts(ver, View(), connfd, cur);
      var timer := usersTimer[connfd];
      FoundAt(usersTimer, s, connfd, i);
      Extend(ver, timer, i, cur + 3 * TIMESLOT);
      last, now := if connfd in last then last[connfd := cur] else last, cur;
      FoundThrough(usersTimer, s, timerLst.spine);
    }

    /** deal_timer: the connection is closed and its timer is taken out of the list. */
    method DealTimer(ver: Version, fd: int, ghost cur: int)
      requires Valid() && Enabled(View(), Close(fd, cur))
      modifies this, timerLst, timerLst.spine
      ensures Valid() && View() == Step(ver, old(View()), Close(fd, cur))
    {
      hide RemoveAt, Sorted, DistinctKeys, Inv, Linked, TableOf, Step, IndexOf, Finds, HasTimer, Users;
      hide SortTimerList.Valid, SortTimerList.Table;
      ghost var s, i := timerLst.spine, IndexOf(timerLst.Table(), usersTimer[fd].User());
      CloseFacts(ver, View(), fd, cur);
      var timer := usersTimer[fd];
      FoundAt(usersTimer, s, fd, i);
      timerLst.DelTimer(timer, i);
      last, now := last - {fd}, cur;
      FoundThrough(usersTimer, s, timerLst.spine);
    }

    /** A worker closes the connection: neither users_timer nor the list is told. */
    ghost method WorkerCloses(ver: Version, fd: int, cur: int)
      requires Valid() && Enabled(View(), WorkerClose(fd, cur))
      modifies this`last, this`now
      ensures Valid() && View() == Step(ver, old(View()), WorkerClose(fd, cur))
    {
      hide Sorted, DistinctKeys, Linked, TableOf, Finds;
      StepKeeps(View(), WorkerClose(fd, cur));
      last, now := last - {fd}, cur;
    }

    /**
    timer_handler: the callbacks close the descriptors of the expired timers. These are exactly the idle open ones
    if and only if no timer of an earlier connection is for an open one that is not idle.
    */
    method TimerHandler(ver: Version, cur: int) returns (closed: seq<int>)
      requires Valid() && Enabled(View(), Alarm(cur))
      modifies this, timerLst, timerLst.spine
      ensures Valid() && View() == Step(ver, old(View()), Alarm(cur))
      ensures forall fd :: fd in closed <==> fd in Fds(Expired(old(View()).table, cur))
      ensures ClosesTheIdle(closed, old(View()), cur) <==> !ClosesTooEarly(old(View()), cur)
    {
      hide Sorted, DistinctKeys, Inv, Linked, TableOf, Expired, Unexpired, Fds, Finds, ClosesTooEarly, ClosesTheIdle,
           Users;
      hide SortTimerList.Valid, SortTimerList.Table;
      ghost var s, before := timerLst.spine, View();
      AlarmKeeps(ver, before, cur);
      closed := timerLst.Tick(cur);
      FiredAreExpired(closed, Expired(before.table, cur));
      last, now, lastAlarm := last - Fds(Expired(before.table, cur)), cur, cur;
      FoundThrough(usersTimer, s, timerLst.spine);
      ClosedAreIdle(ver, before, cur, closed);
    }
  }

  /** Who the timers of users_timer are for. */
  ghost function Users(usersTimer: map<int, UtilTimer>): (m: map<int, Owner>)
    ensures forall fd :: fd in usersTimer <==> fd in m
    ensures forall fd :: fd in usersTimer ==> m[fd] == usersTimer[fd].User()
  {
    map fd | fd in usersTimer :: usersTimer[fd].User()
  }

  /** A node of the list for the same timer as that of users_timer is the same node. */
  ghost predicate Finds(usersTimer: map<int, UtilTimer>, spine: seq<UtilTimer>) {
    forall fd, i :: fd in usersTimer && 0 <= i < |spine| && spine[i].User() == usersTimer[fd].User() ==>
                      spine[i] == usersTimer[fd]
  }

  /** Of the open connections, exactly the idle ones are closed. */
  ghost predicate ClosesTheIdle(closed: seq<int>, s: Timers, cur: int) {
    forall fd :: fd in s.last ==> (fd in closed <==> Idle(s, fd, cur))
  }

  /** The activity that takes the timer of an open connection out of the list. */
  ghost predicate CutsOpen(s: Timers, e: Event)
    requires Enabled(s, e)
  {
    CutsList(s, e) && exists j :: 2 <= j < |s.table| && IsCurrent(s, s.table[j])
  }

  lemma FoundThrough(usersTimer: map<int, UtilTimer>, s: seq<UtilTimer>, s': seq<UtilTimer>)
    requires Finds(usersTimer, s) && forall t :: t in s' ==> t in s
    ensures Finds(usersTimer, s')
  {
    forall fd, i | fd in usersTimer && 0 <= i < |s'| && s'[i].User() == usersTimer[fd].User()
      ensures s'[i] == usersTimer[fd]
    {
      assert s'[i] in s';
    }
  }

  lemma FoundAt(usersTimer: map<int, UtilTimer>, s: seq<UtilTimer>, fd: int, i: nat)
    requires Finds(usersTimer, s) && fd in usersTimer && i < |s| && s[i].User() == usersTimer[fd].User()
    ensures usersTimer[fd] == s[i]
  {
  }

  lemma FoundWithNew(usersTimer: map<int, UtilTimer>, s: seq<UtilTimer>, timer: UtilTimer, made: nat)
    requires Finds(usersTimer, s) && timer.serial == made && (forall i :: 0 <= i < |s| ==> s[i].serial < made)
    requires forall fd :: fd in usersTimer ==> usersTimer[fd].fd == fd
    ensures Finds(usersTimer[timer.fd := timer], s + [timer])
    ensures Users(usersTimer[timer.fd := timer]) == Users(usersTimer)[timer.fd := timer.User()]
  {
    var m, u := usersTimer[timer.fd := timer], s + [timer];
    forall fd, i | fd in m && 0 <= i < |u| && u[i].User() == m[fd].User()
      ensures u[i] == m[fd]
    {
      if i < |s| {
        assert u[i] == s[i];
      } else {
        assert m[fd].fd == timer.fd;
      }
    }
  }

  lemma FiredAreExpired(fired: seq<int>, t: seq<Entry<Owner>>)
    requires |fired| == |t| && forall k :: 0 <= k < |fired| ==> fired[k] == t[k].key.fd
    ensures forall fd :: fd in fired <==> fd in Fds(t)
  {
    forall fd
      ensures fd in fired <==> fd in Fds(t)
    {
      if fd in fired {
        var k :| 0 <= k < |fired| && fired[k] == fd;
        assert t[k] in t;
      }
      if fd in Fds(t) {
        var k :| 0 <= k < |t| && t[k].key.fd == fd;
        assert fired[k] == fd;
      }
    }
  }

  lemma ClosedAreIdle(ver: Version, s: Timers, cur: int, closed: seq<int>)
    requires Inv(s) && Enabled(s, Alarm(cur))
    requires forall fd :: fd in closed <==> fd in Fds(Expired(s.table, cur))
    ensures ClosesTheIdle(closed, s, cur) <==> !ClosesTooEarly(s, cur)
  {
    hide Inv, Expired, Fds, ClosesTooEarly;
    AlarmExactly(ver, s, cur);
  }

  lemma AcceptFacts(ver: Version, s: Timers, fd: int, cur: int)
    requires Inv(s) && Enabled(s, Accept(fd, cur))
    ensures Step(ver, s, Accept(fd, cur)) ==
            s.(table := Insert(s.table, Entry(Owner(fd, s.made), cur + LIFETIME)),
               current := s.current[fd := Owner(fd, s.made)],
               last := s.last[fd := cur], now := cur, made := s.made + 1)
    ensures Inv(Step(ver, s, Accept(fd, cur)))
    ensures forall i :: 0 <= i < |s.table| ==> s.table[i].key.serial < s.made
    ensures forall g :: g in s.current ==> s.current[g].fd == g
  {
    hide Insert, Sorted, DistinctKeys;
    AcceptKeeps(ver, s, fd, cur);
    NewDeadlineIsLatest(s, cur);
  }

  lemma ActivityFacts(ver: Version, s: Timers, fd: int, cur: int)
    requires Inv(s) && Enabled(s, Active(fd, cur))
    ensures var i, x := IndexOf(s.table, s.current[fd]), Entry(s.current[fd], cur + LIFETIME);
            && i < |s.table| && s.table[i].key == s.current[fd]
            && Extended(s.table[i := x], i)
            && Step(ver, s, Active(fd, cur)) ==
               s.(table := Adjusted(ver, s.table[i := x], i),
                  last := if fd in s.last then s.last[fd := cur] else s.last, now := cur)
    ensures Inv(Step(ver, s, Active(fd, cur))) <==> ver == Repaired || !CutsOpen(s, Active(fd, cur))
  {
    hide Inv, Adjusted, Extended, HasTimer, DistinctKeys, Sorted;
    InvIsSorted(s);
    ActiveAtEnd(s, fd, cur);
    NewDeadlineIsLatest(s, cur);
    ExtendedByActivity(s.table, IndexOf(s.table, s.current[fd]), Entry(s.current[fd], cur + LIFETIME));
    ActiveKeeps(s, fd, cur);
    AsWrittenKeeps(s, Active(fd, cur));
  }

  lemma CloseFacts(ver: Version, s: Timers, fd: int, cur: int)
    requires Inv(s) && Enabled(s, Close(fd, cur))
    ensures var i := IndexOf(s.table, s.current[fd]);
            && i < |s.table| && s.table[i].key == s.current[fd]
            && Step(ver, s, Close(fd, cur)) == s.(table := RemoveAt(s.table, i), last := s.last - {fd}, now := cur)
    ensures Inv(Step(ver, s, Close(fd, cur)))
  {
    hide Inv, RemoveAt, IndexOf;
    OpenHasTimer(s, fd);
    CloseKeeps(ver, s, fd, cur);
  }

  lemma InvIsSorted(s: Timers)
    requires Inv(s)
    ensures Sorted(s.table) && DistinctKeys(s.table)
  {
  }
}
