/**
Round-robin dispatch over child processes that can only die: the parent's loop of the process pool. A child
that is dead has process id -1.
*/
module Dispatch {
  const DEAD := -1

  function Next(i: nat, n: nat): (r: nat)
    requires i < n
    ensures r < n
  {
    (i + 1) % n
  }

  /** How far j is ahead of the counter, going round. */
  function Ahead(counter: nat, j: nat, n: nat): (d: nat)
    requires counter < n && j < n
    ensures d < n && (d == 0 <==> j == counter)
  {
    if j >= counter then j - counter else j + n - counter
  }

  lemma NextIs(i: nat, n: nat)
    requires i < n
    ensures Next(i, n) == if i + 1 == n then 0 else i + 1
  {
  }

  /** The first live child among left places from i on, going round; -1 if there is none. */
  function Scan(pids: seq<int>, i: nat, left: nat): (r: int)
    requires i < |pids|
    ensures -1 <= r < |pids|
    decreases left
  {
    if left == 0 then -1 else if pids[i] != DEAD then i else Scan(pids, Next(i, |pids|), left - 1)
  }

  lemma ScanStep(pids: seq<int>, i: nat, left: nat)
    requires i < |pids|
    ensures Scan(pids, i, |pids|) == Choice(pids, i)
    ensures left == 0 ==> Scan(pids, i, left) == -1
    ensures left > 0 && pids[i] != DEAD ==> Scan(pids, i, left) == i
    ensures left > 0 && pids[i] == DEAD ==> Scan(pids, i, left) == Scan(pids, Next(i, |pids|), left - 1)
  {
  }

  /** What the selection loop finds. */
  function Choice(pids: seq<int>, counter: nat): (r: int)
    requires counter < |pids|
    ensures -1 <= r < |pids|
  {
    Scan(pids, counter, |pids|)
  }

  lemma {:induction false} ScanIsFirst(pids: seq<int>, counter: nat, i: nat, left: nat)
    requires counter < |pids| && i < |pids| && left <= |pids|
    requires left == 0 || Ahead(counter, i, |pids|) == |pids| - left
    requires forall j :: 0 <= j < |pids| && Ahead(counter, j, |pids|) < |pids| - left ==> pids[j] == DEAD
    ensures var r := Scan(pids, i, left);
            if r == -1 then forall j :: 0 <= j < |pids| ==> pids[j] == DEAD
            else
              && pids[r] != DEAD
              && forall j :: 0 <= j < |pids| && pids[j] != DEAD ==>
                               Ahead(counter, r, |pids|) <= Ahead(counter, j, |pids|)
    decreases left
  {
    var n := |pids|;
    if left > 0 && pids[i] == DEAD {
      NextIs(i, n);
      forall j | 0 <= j < n && Ahead(counter, j, n) < n - (left - 1)
        ensures pids[j] == DEAD
      {
        if Ahead(counter, j, n) == n - left {
          assert j == i;
        }
      }
      ScanIsFirst(pids, counter, Next(i, n), left - 1);
    }
  }

  /** The chosen child is the first live one from the counter on; none is chosen exactly if all are dead. */
  lemma ChoiceIsFirst(pids: seq<int>, counter: nat)
    requires counter < |pids|
    ensures var r := Choice(pids, counter);
            && (r == -1 <==> forall j :: 0 <= j < |pids| ==> pids[j] == DEAD)
            && (r != -1 ==> pids[r] != DEAD)
            && (r != -1 ==> forall j :: 0 <= j < |pids| && pids[j] != DEAD ==>
                                          Ahead(counter, r, |pids|) <= Ahead(counter, j, |pids|))
  {
    ScanIsFirst(pids, counter, counter, |pids|);
  }

  /** The children with one of these process ids are dead. */
  function Buried(pids: seq<int>, dead: seq<int>): (r: seq<int>)
    ensures |r| == |pids|
    ensures forall i :: 0 <= i < |pids| ==> r[i] == if pids[i] in dead then DEAD else pids[i]
  {
    seq(|pids|, i requires 0 <= i < |pids| => if pids[i] in dead then DEAD else pids[i])
  }

  ghost predicate AllDead(pids: seq<int>) {
    forall i :: 0 <= i < |pids| ==> pids[i] == DEAD
  }

  class ProcessPool {
    const pids: array<int>
    var counter: nat
    var stop: bool

    ghost predicate Valid()
      reads this
    {
      counter < pids.Length
    }

    constructor (pids: array<int>)
      requires pids.Length > 0
      ensures Valid() && this.pids == pids && counter == 0 && !stop
    {
      this.pids, counter, stop := pids, 0, false;
    }

    /** A new connection: the number of the child that is told, or -1. */
    method Dispatch() returns (chosen: int)
      requires Valid()
      modifies this
      ensures Valid() && chosen == Choice(pids[..], old(counter))
      ensures counter == if chosen == -1 then old(counter) else Next(chosen, pids.Length)
      ensures stop == (old(stop) || chosen == -1)
    {
      hide Scan, Choice;
      ghost var s, left := pids[..], pids.Length;
      var i: nat := counter;
      ScanStep(s, i, left);
      while true
        invariant counter == old(counter) && stop == old(stop) && s == pids[..]
        invariant i < pids.Length && 0 < left <= pids.Length
        invariant Ahead(counter, i, pids.Length) == pids.Length - left
        invariant Choice(s, counter) == Scan(s, i, left)
        decreases left
      {
        ScanStep(s, i, left);
        if pids[i] != DEAD {
          break;
        }
        NextIs(i, pids.Length);
        i := (i + 1) % pids.Length;
        left := left - 1;
        ScanStep(s, i, left);
        if i == counter {
          break;
        }
      }
      ChoiceIsFirst(s, counter);
      if pids[i] == DEAD {
        stop := true;
        return -1;
      }
      counter := (i + 1) % pids.Length;
      return i;
    }

    /** SIGCHLD: dead lists the process ids that waitpid returns. */
    method Reap(dead: seq<int>)
      requires Valid()
      modifies this`stop, pids
      ensures Valid() && pids[..] == Buried(old(pids[..]), dead)
      ensures stop <==> AllDead(pids[..])
    {
      ghost var s := pids[..];
      for k := 0 to |dead|
        invariant forall i :: 0 <= i < pids.Length ==> pids[i] == if s[i] in dead[..k] then DEAD else s[i]
      {
        for i := 0 to pids.Length
          invariant forall j :: i <= j < pids.Length ==> pids[j] == if s[j] in dead[..k] then DEAD else s[j]
          invariant forall j :: 0 <= j < i ==> pids[j] == if s[j] in dead[..k + 1] then DEAD else s[j]
        {
          assert dead[..k + 1] == dead[..k] + [dead[k]];
          if pids[i] == dead[k] {
            pids[i] := DEAD;
          }
        }
      }
      assert dead[..|dead|] == dead;
      assert pids[..] == Buried(s, dead);
      stop := true;
      for i := 0 to pids.Length
        invariant stop <==> forall j :: 0 <= j < i ==> pids[j] == DEAD
        invariant pids[..] == Buried(s, dead)
      {
        if pids[i] != DEAD {
          stop := false;
        }
      }
    }
  }

  // ---------- Fairness ----------

  datatype Event = Connect | Die(dead: seq<int>)

  /** The children that are chosen in a run of connections and deaths. */
  function Chosen(pids: seq<int>, counter: nat, events: seq<Event>): seq<int>
    requires counter < |pids|
    decreases |events|
  {
    if events == [] then []
    else if events[0].Die? then Chosen(Buried(pids, events[0].dead), counter, events[1..])
    else
      var r := Choice(pids, counter);
      [r] + Chosen(pids, if r == -1 then counter else Next(r, |pids|), events[1..])
  }

  function PidsAfter(pids: seq<int>, events: seq<Event>): (r: seq<int>)
    ensures |r| == |pids|
    ensures forall i :: 0 <= i < |pids| && pids[i] == DEAD ==> r[i] == DEAD
    decreases |events|
  {
    if events == [] then pids
    else PidsAfter(if events[0].Die? then Buried(pids, events[0].dead) else pids, events[1..])
  }

  function Connections(events: seq<Event>): nat {
    if events == [] then 0 else (if events[0].Connect? then 1 else 0) + Connections(events[1..])
  }

  lemma CloserAfter(pids: seq<int>, counter: nat, j: nat)
    requires counter < |pids| && j < |pids| && pids[j] != DEAD && Choice(pids, counter) != j
    ensures var r := Choice(pids, counter);
            r != -1 && Ahead(Next(r, |pids|), j, |pids|) < Ahead(counter, j, |pids|)
  {
    ChoiceIsFirst(pids, counter);
    NextIs(Choice(pids, counter), |pids|);
  }

  /** A child that stays alive is chosen before the connections outnumber the places between it and the counter. */
  lemma {:induction false} ChosenInTime(pids: seq<int>, counter: nat, events: seq<Event>, j: nat)
    requires counter < |pids| && j < |pids| && PidsAfter(pids, events)[j] != DEAD
    requires Connections(events) > Ahead(counter, j, |pids|)
    ensures j in Chosen(pids, counter, events)
    decreases |events|
  {
    if events[0].Die? {
      ChosenInTime(Buried(pids, events[0].dead), counter, events[1..], j);
    } else if Choice(pids, counter) != j {
      CloserAfter(pids, counter, j);
      ChosenInTime(pids, Next(Choice(pids, counter), |pids|), events[1..], j);
    }
  }

  /** So every child that stays alive is chosen within any |pids| connections, however many others die. */
  lemma NoneStarves(pids: seq<int>, counter: nat, events: seq<Event>, j: nat)
    requires counter < |pids| && j < |pids| && PidsAfter(pids, events)[j] != DEAD
    requires Connections(events) >= |pids|
    ensures j in Chosen(pids, counter, events)
  {
    ChosenInTime(pids, counter, events, j);
  }

  // ---------- A fixed set of children ----------

  /** The live children among left places from i on, going round. */
  function LiveFrom(pids: seq<int>, i: nat, left: nat): seq<int>
    requires i < |pids|
    decreases left
  {
    if left == 0 then []
    else (if pids[i] != DEAD then [i] else []) + LiveFrom(pids, Next(i, |pids|), left - 1)
  }

  /** k connections in a row, while nobody dies. */
  function InARow(pids: seq<int>, counter: nat, k: nat): seq<int>
    requires counter < |pids|
    decreases k
  {
    if k == 0 then []
    else
      var r := Choice(pids, counter);
      [r] + InARow(pids, if r == -1 then counter else Next(r, |pids|), k - 1)
  }

  lemma {:induction false} ScanLonger(pids: seq<int>, i: nat, left: nat, more: nat)
    requires i < |pids| && Scan(pids, i, left) != -1
    ensures Scan(pids, i, left + more) == Scan(pids, i, left)
    decreases left
  {
    if left > 0 && pids[i] == DEAD {
      ScanLonger(pids, Next(i, |pids|), left - 1, more);
    }
  }

  /** A dead child at the counter makes no difference, as long as some other is left. */
  lemma SkipsDead(pids: seq<int>, i: nat, k: nat)
    requires i < |pids| && pids[i] == DEAD && Choice(pids, i) != -1
    ensures InARow(pids, i, k) == InARow(pids, Next(i, |pids|), k)
  {
    ScanLonger(pids, Next(i, |pids|), |pids| - 1, 1);
  }

  lemma {:induction false} HeadIsScanned(pids: seq<int>, i: nat, left: nat)
    requires i < |pids| && LiveFrom(pids, i, left) != []
    ensures Scan(pids, i, left) == LiveFrom(pids, i, left)[0] >= 0
    decreases left
  {
    if pids[i] == DEAD {
      HeadIsScanned(pids, Next(i, |pids|), left - 1);
    }
  }

  lemma {:induction false} RowFollowsPlaces(pids: seq<int>, i: nat, left: nat)
    requires i < |pids| && left <= |pids|
    ensures InARow(pids, i, |LiveFrom(pids, i, left)|) == LiveFrom(pids, i, left)
    decreases left
  {
    if left > 0 {
      var rest := LiveFrom(pids, Next(i, |pids|), left - 1);
      RowFollowsPlaces(pids, Next(i, |pids|), left - 1);
      if pids[i] == DEAD && rest != [] {
        HeadIsScanned(pids, Next(i, |pids|), left - 1);
        ScanLonger(pids, i, left, |pids| - left);
        SkipsDead(pids, i, |rest|);
      }
    }
  }

  lemma LiveStep(pids: seq<int>, i: nat, left: nat, j: int)
    requires i < |pids| && left > 0
    ensures multiset(LiveFrom(pids, i, left))[j] ==
            multiset(LiveFrom(pids, Next(i, |pids|), left - 1))[j] + (if i == j && pids[i] != DEAD then 1 else 0)
  {
    hide Next;
    var rest := LiveFrom(pids, Next(i, |pids|), left - 1);
    assert LiveFrom(pids, i, left) == (if pids[i] != DEAD then [i] else []) + rest;
  }

  lemma AheadOfNext(counter: nat, i: nat, j: nat, n: nat, left: nat)
    requires counter < n && i < n && j < n && 0 < left <= n && Ahead(counter, i, n) == n - left
    ensures left == 1 || Ahead(counter, Next(i, n), n) == n - (left - 1)
    ensures Ahead(counter, j, n) == n - left <==> j == i
  {
    NextIs(i, n);
  }

  lemma {:induction false} LiveOnce(pids: seq<int>, counter: nat, i: nat, left: nat, j: nat)
    requires counter < |pids| && i < |pids| && j < |pids| && left <= |pids|
    requires left == 0 || Ahead(counter, i, |pids|) == |pids| - left
    ensures multiset(LiveFrom(pids, i, left))[j] ==
            if pids[j] != DEAD && Ahead(counter, j, |pids|) >= |pids| - left then 1 else 0
    decreases left
  {
    hide Next, Ahead;
    if left > 0 {
      AheadOfNext(counter, i, j, |pids|, left);
      LiveOnce(pids, counter, Next(i, |pids|), left - 1, j);
      LiveStep(pids, i, left, j);
    }
  }

  /** As many connections as there are live children reach each of them exactly once. */
  lemma EachOnce(pids: seq<int>, counter: nat, j: nat)
    requires counter < |pids| && j < |pids|
    ensures var row := InARow(pids, counter, |LiveFrom(pids, 0, |pids|)|);
            multiset(row)[j] == if pids[j] != DEAD then 1 else 0
  {
    LiveOnce(pids, counter, counter, |pids|, j);
    RowFollowsPlaces(pids, counter, |pids|);
    SameNumber(pids, counter);
  }

  /** The number of live children does not depend on where the round begins. */
  lemma SameNumber(pids: seq<int>, counter: nat)
    requires counter < |pids|
    ensures |LiveFrom(pids, counter, |pids|)| == |LiveFrom(pids, 0, |pids|)|
  {
    var a, b := multiset(LiveFrom(pids, counter, |pids|)), multiset(LiveFrom(pids, 0, |pids|));
    forall x: int
      ensures a[x] == b[x]
    {
      if 0 <= x < |pids| {
        LiveOnce(pids, counter, counter, |pids|, x);
        LiveOnce(pids, 0, 0, |pids|, x);
      } else {
        LiveAreChildren(pids, counter, |pids|, x);
        LiveAreChildren(pids, 0, |pids|, x);
      }
    }
    assert a == b;
    assert |a| == |b|;
  }

  lemma {:induction false} LiveAreChildren(pids: seq<int>, i: nat, left: nat, x: int)
    requires i < |pids| && !(0 <= x < |pids|)
    ensures x !in LiveFrom(pids, i, left)
    decreases left
  {
    if left > 0 {
      LiveAreChildren(pids, Next(i, |pids|), left - 1, x);
    }
  }
}
