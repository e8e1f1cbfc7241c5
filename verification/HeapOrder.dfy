/**
The binary min-heap of timers as operations on sequences: what add_timer, pop_timer, percolate_down and the
array constructor make of the first cur_size entries of the array.

As written, percolate_down compares where it should assign, so that the timer it sifts overwrites the one at
the place where it ends and also stays where it was. Repaired, the timers on the way move up.
*/
module HeapOrder {
  import opened Sequences
  import opened SourceVersion

  /** armed is false once cb_func has been cleared. */
  class HeapTimer {
    const expire: int
    var armed: bool

    constructor (expire: int)
      ensures this.expire == expire && armed
    {
      this.expire, armed := expire, true;
    }
  }

  function Parent(j: nat): (p: nat)
    requires j > 0
    ensures p < j
  {
    (j - 1) / 2
  }

  /** Heap order among the places whose parent is not below lo. */
  ghost predicate HeapFrom(s: seq<HeapTimer>, lo: nat) {
    forall j :: 0 < j < |s| && Parent(j) >= lo ==> s[Parent(j)].expire <= s[j].expire
  }

  ghost predicate IsHeap(s: seq<HeapTimer>) {
    HeapFrom(s, 0)
  }

  // ---------- percolate_down ----------

  /** The child that expires first; the left one if both expire at the same time. */
  function SmallerChild(s: seq<HeapTimer>, hole: nat): (c: nat)
    requires 2 * hole + 1 < |s|
    ensures hole < c < |s| && Parent(c) == hole
    ensures forall j :: 0 < j < |s| && Parent(j) == hole ==> s[c].expire <= s[j].expire
    ensures c == 2 * hole + 1 || s[c].expire < s[2 * hole + 1].expire
  {
    var child := 2 * hole + 1;
    if child + 1 < |s| && s[child + 1].expire < s[child].expire then child + 1 else child
  }

  /** The loop of percolate_down goes on. */
  predicate Sinks(s: seq<HeapTimer>, hole: nat, temp: HeapTimer) {
    2 * hole + 1 < |s| && s[SmallerChild(s, hole)].expire < temp.expire
  }

  function SiftDown(ver: Version, s: seq<HeapTimer>, hole: nat, temp: HeapTimer): (r: seq<HeapTimer>)
    requires hole < |s|
    ensures |r| == |s|
    decreases |s| - hole
  {
    if Sinks(s, hole, temp) then
      var c := SmallerChild(s, hole);
      SiftDown(ver, if ver == AsWritten then s else s[hole := s[c]], c, temp)
    else s[hole := temp]
  }

  function Percolated(ver: Version, s: seq<HeapTimer>, hole: nat): (r: seq<HeapTimer>)
    requires hole < |s|
    ensures |r| == |s|
  {
    SiftDown(ver, s, hole, s[hole])
  }

  /** The number of places by which the timer sinks. */
  function Steps(s: seq<HeapTimer>, hole: nat, temp: HeapTimer): nat
    decreases |s| - hole
  {
    if Sinks(s, hole, temp) then 1 + Steps(s, SmallerChild(s, hole), temp) else 0
  }

  // ---------- add_timer, pop_timer and the array constructor ----------

  function SiftUp(s: seq<HeapTimer>, hole: nat, timer: HeapTimer): (r: seq<HeapTimer>)
    requires hole < |s|
    ensures |r| == |s|
    decreases hole
  {
    if hole > 0 && timer.expire < s[Parent(hole)].expire then
      SiftUp(s[hole := s[Parent(hole)]], Parent(hole), timer)
    else s[hole := timer]
  }

  function Added(s: seq<HeapTimer>, timer: HeapTimer): (r: seq<HeapTimer>)
    ensures |r| == |s| + 1
  {
    SiftUp(s + [timer], |s|, timer)
  }

  /** The last timer takes the place of the first, and sinks. */
  function LastToFront(s: seq<HeapTimer>): (r: seq<HeapTimer>)
    requires |s| > 1
    ensures |r| == |s| - 1
  {
    s[..|s| - 1][0 := s[|s| - 1]]
  }

  function Popped(ver: Version, s: seq<HeapTimer>): (r: seq<HeapTimer>)
    requires s != []
    ensures |r| == |s| - 1
  {
    if |s| == 1 then [] else Percolated(ver, LastToFront(s), 0)
  }

  /** The loop of the array constructor, from place i down to the root. */
  function BuildFrom(ver: Version, s: seq<HeapTimer>, i: int): (r: seq<HeapTimer>)
    requires -1 <= i < |s|
    ensures |r| == |s|
    decreases i + 1
  {
    if i < 0 then s else BuildFrom(ver, Percolated(ver, s, i), i - 1)
  }

  function Built(ver: Version, s: seq<HeapTimer>): (r: seq<HeapTimer>)
    ensures |r| == |s|
  {
    if s == [] then s else BuildFrom(ver, s, (|s| - 1) / 2)
  }

  // ---------- Heap order and conservation ----------

  lemma Replaced<T>(s: seq<T>, i: nat, x: T)
    requires i < |s|
    ensures multiset(s[i := x]) + multiset{s[i]} == multiset(s) + multiset{x}
  {
    assert s == s[..i] + [s[i]] + s[i + 1..];
    assert s[i := x] == s[..i] + [x] + s[i + 1..];
  }

  /**
  While a timer sinks from the root lo of a subtree, the places around the hole stay in order: either the hole
  is still at lo, or it holds a copy of its parent.
  */
  lemma {:induction false} SiftDownOrders(s: seq<HeapTimer>, hole: nat, temp: HeapTimer, lo: nat)
    requires lo <= hole < |s|
    requires HeapFrom(s, if hole == lo then lo + 1 else lo)
    requires hole > lo ==> s[hole].expire <= temp.expire
    ensures HeapFrom(SiftDown(Repaired, s, hole, temp), lo)
    ensures multiset(SiftDown(Repaired, s, hole, temp)) == multiset(s[hole := temp])
    decreases |s| - hole
  {
    if Sinks(s, hole, temp) {
      var c := SmallerChild(s, hole);
      var u := s[hole := s[c]];
      assert HeapFrom(u, lo);
      SiftDownOrders(u, c, temp, lo);
      Replaced(u, c, temp);
      Replaced(s, hole, s[c]);
      Replaced(s, hole, temp);
    }
  }

  /** percolate_down makes a heap of a subtree whose two halves are heaps, and keeps every timer. */
  lemma PercolateOrders(s: seq<HeapTimer>, hole: nat)
    requires hole < |s| && HeapFrom(s, hole + 1)
    ensures HeapFrom(Percolated(Repaired, s, hole), hole)
    ensures multiset(Percolated(Repaired, s, hole)) == multiset(s)
  {
    SiftDownOrders(s, hole, s[hole], hole);
    assert s[hole := s[hole]] == s;
  }

  lemma {:induction false} BuildOrders(s: seq<HeapTimer>, i: int)
    requires -1 <= i < |s| && HeapFrom(s, i + 1)
    ensures IsHeap(BuildFrom(Repaired, s, i)) && multiset(BuildFrom(Repaired, s, i)) == multiset(s)
    decreases i + 1
  {
    if i >= 0 {
      PercolateOrders(s, i);
      BuildOrders(Percolated(Repaired, s, i), i - 1);
    }
  }

  lemma LeavesOrdered(s: seq<HeapTimer>)
    requires s != []
    ensures HeapFrom(s, (|s| - 1) / 2 + 1)
  {
  }

  /** Any array of timers becomes a heap with the same timers. */
  lemma BuiltIsHeap(s: seq<HeapTimer>)
    ensures IsHeap(Built(Repaired, s)) && multiset(Built(Repaired, s)) == multiset(s)
  {
    if s != [] {
      LeavesOrdered(s);
      BuildOrders(s, (|s| - 1) / 2);
    }
  }

  lemma {:induction false} SiftUpOrders(s: seq<HeapTimer>, hole: nat, timer: HeapTimer)
    requires hole < |s|
    requires forall j :: 0 < j < |s| && (hole == |s| - 1 ==> j != hole) ==> s[Parent(j)].expire <= s[j].expire
    requires hole < |s| - 1 ==> timer.expire < s[hole].expire
    ensures IsHeap(SiftUp(s, hole, timer))
    ensures multiset(SiftUp(s, hole, timer)) == multiset(s[hole := timer])
    decreases hole
  {
    if hole > 0 && timer.expire < s[Parent(hole)].expire {
      var p := Parent(hole);
      var u := s[hole := s[p]];
      SiftUpOrders(u, p, timer);
      Replaced(u, p, timer);
      Replaced(s, hole, s[p]);
      Replaced(s, hole, timer);
    }
  }

  lemma AddedKeeps(s: seq<HeapTimer>, timer: HeapTimer)
    requires IsHeap(s)
    ensures IsHeap(Added(s, timer)) && multiset(Added(s, timer)) == multiset(s) + multiset{timer}
  {
    var u := s + [timer];
    assert forall j :: 0 < j < |s| ==> u[j] == s[j] && u[Parent(j)] == s[Parent(j)];
    SiftUpOrders(u, |s|, timer);
    assert u[|s| := timer] == u;
  }

  /** What top shows expires no later than any other timer. */
  lemma {:induction false} TopIsFirst(s: seq<HeapTimer>, k: nat)
    requires IsHeap(s) && k < |s|
    ensures s[0].expire <= s[k].expire
    decreases k
  {
    if k > 0 {
      TopIsFirst(s, Parent(k));
    }
  }

  lemma TopIsLeast(s: seq<HeapTimer>, t: HeapTimer)
    requires IsHeap(s) && t in s
    ensures s[0].expire <= t.expire
  {
    var k :| 0 <= k < |s| && s[k] == t;
    TopIsFirst(s, k);
  }

  lemma LastToFrontHas(s: seq<HeapTimer>)
    requires |s| > 1
    ensures multiset(LastToFront(s)) + multiset{s[0]} == multiset(s)
    ensures IsHeap(s) ==> HeapFrom(LastToFront(s), 1)
  {
    var n := |s| - 1;
    assert s == s[..n] + [s[n]];
    Replaced(s[..n], 0, s[n]);
    var u := LastToFront(s);
    assert forall j :: 0 < j < n ==> u[j] == s[j];
  }

  lemma PoppedKeeps(s: seq<HeapTimer>)
    requires IsHeap(s) && s != []
    ensures IsHeap(Popped(Repaired, s)) && multiset(Popped(Repaired, s)) + multiset{s[0]} == multiset(s)
  {
    if |s| > 1 {
      LastToFrontHas(s);
      PercolateOrders(LastToFront(s), 0);
    } else {
      assert s == [s[0]];
    }
  }

  // ---------- Whole runs ----------

  /** top and pop_timer until the heap is empty. */
  function Drained(s: seq<HeapTimer>): seq<HeapTimer>
    decreases |s|
  {
    if s == [] then [] else [s[0]] + Drained(Popped(Repaired, s))
  }

  /** Draining yields every timer exactly once. */
  lemma {:induction false} DrainKeeps(s: seq<HeapTimer>)
    requires IsHeap(s)
    ensures multiset(Drained(s)) == multiset(s)
    decreases |s|
  {
    if s != [] {
      hide Popped, IsHeap;
      PoppedKeeps(s);
      DrainKeeps(Popped(Repaired, s));
    }
  }

  /** And it does so in the order in which they expire. */
  lemma {:induction false} DrainSorts(s: seq<HeapTimer>)
    requires IsHeap(s)
    ensures forall i, j :: 0 <= i < j < |Drained(s)| ==> Drained(s)[i].expire <= Drained(s)[j].expire
    decreases |s|
  {
    if s == [] {
      assert Drained(s) == [];
    } else {
      hide *;
      var d := Drained(Popped(Repaired, s));
      PoppedKeeps(s);
      DrainSorts(Popped(Repaired, s));
      DrainKeeps(s);
      DrainStep(s);
      TopBelowRest(s, d);
      FirstInFront(s[0], d);
    }
  }

  lemma TopBelowRest(s: seq<HeapTimer>, d: seq<HeapTimer>)
    requires s != [] && IsHeap(s) && multiset([s[0]] + d) == multiset(s)
    ensures forall i :: 0 <= i < |d| ==> s[0].expire <= d[i].expire
  {
    hide IsHeap;
    forall i | 0 <= i < |d|
      ensures s[0].expire <= d[i].expire
    {
      assert ([s[0]] + d)[i + 1] == d[i];
      assert d[i] in multiset([s[0]] + d);
      TopIsLeast(s, d[i]);
    }
  }

  lemma DrainStep(s: seq<HeapTimer>)
    requires s != []
    ensures Drained(s) == [s[0]] + Drained(Popped(Repaired, s))
  {
  }

  lemma FirstInFront(t: HeapTimer, d: seq<HeapTimer>)
    requires forall i, j :: 0 <= i < j < |d| ==> d[i].expire <= d[j].expire
    requires forall i :: 0 <= i < |d| ==> t.expire <= d[i].expire
    ensures var u := [t] + d;
            forall i, j :: 0 <= i < j < |u| ==> u[i].expire <= u[j].expire
  {
  }

  datatype Op = Add(timer: HeapTimer) | Pop

  /** The heap after a run of operations, and the timers that were at the top when they were popped. */
  function Ran(s: seq<HeapTimer>, ops: seq<Op>): (r: (seq<HeapTimer>, seq<HeapTimer>))
    decreases |ops|
  {
    if ops == [] then (s, [])
    else if ops[0].Add? then Ran(Added(s, ops[0].timer), ops[1..])
    else if s == [] then Ran(s, ops[1..])
    else
      var (t, popped) := Ran(Popped(Repaired, s), ops[1..]);
      (t, [s[0]] + popped)
  }

  ghost function AddedIn(ops: seq<Op>): multiset<HeapTimer>
    decreases |ops|
  {
    if ops == [] then multiset{}
    else (if ops[0].Add? then multiset{ops[0].timer} else multiset{}) + AddedIn(ops[1..])
  }

  lemma Regrouped<T>(a: multiset<T>, b: multiset<T>, x: multiset<T>, u: multiset<T>, d: multiset<T>)
    requires a + b == u + d
    ensures a + (x + b) == (u + x) + d
  {
    assert a + (x + b) == (a + b) + x;
  }

  /** Over any run every timer that was there or added is either popped or still there, once for each time. */
  lemma {:induction false} RunKeeps(s: seq<HeapTimer>, ops: seq<Op>)
    requires IsHeap(s)
    ensures IsHeap(Ran(s, ops).0)
    ensures multiset(Ran(s, ops).0) + multiset(Ran(s, ops).1) == multiset(s) + AddedIn(ops)
    decreases |ops|
  {
    hide Added, Popped, IsHeap;
    if ops != [] {
      if ops[0].Add? {
        AddedKeeps(s, ops[0].timer);
        RunKeeps(Added(s, ops[0].timer), ops[1..]);
        assert AddedIn(ops) == multiset{ops[0].timer} + AddedIn(ops[1..]);
      } else if s == [] {
        RunKeeps(s, ops[1..]);
      } else {
        PoppedKeeps(s);
        RunKeeps(Popped(Repaired, s), ops[1..]);
        var (t, popped) := Ran(Popped(Repaired, s), ops[1..]);
        assert Ran(s, ops) == (t, [s[0]] + popped) && AddedIn(ops) == AddedIn(ops[1..]);
        Regrouped(multiset(t), multiset(popped), multiset{s[0]}, multiset(Popped(Repaired, s)), AddedIn(ops));
        assert multiset([s[0]] + popped) == multiset{s[0]} + multiset(popped);
      }
    }
  }

  // ---------- The space that the array takes ----------

  /** cur_size, capacity, and how many pointers resize has copied. */
  datatype Space = Space(size: nat, capacity: nat, copied: nat)

  /** Adding to a full array doubles it and copies what is there. */
  function Grown(p: Space, op: Op): Space {
    match op
    case Add(_) =>
      if p.size >= p.capacity then Space(p.size + 1, 2 * p.capacity, p.copied + p.size)
      else p.(size := p.size + 1)
    case Pop => if p.size == 0 then p else p.(size := p.size - 1)
  }

  function GrownBy(p: Space, ops: seq<Op>): Space
    decreases |ops|
  {
    if ops == [] then p else GrownBy(Grown(p, ops[0]), ops[1..])
  }

  function Adds(ops: seq<Op>): nat {
    if ops == [] then 0 else (if ops[0].Add? then 1 else 0) + Adds(ops[1..])
  }

  /** Every copy is paid for: as many as the capacity has grown, which it did only when timers filled it. */
  ghost predicate Paid(p: Space, first: nat, adds: nat) {
    && p.size <= p.capacity && p.size <= adds && 0 < first <= p.capacity
    && p.copied == p.capacity - first
    && (p.capacity > first ==> p.capacity < 2 * adds)
  }

  lemma {:induction false} StaysPaid(p: Space, ops: seq<Op>, first: nat, adds: nat)
    requires Paid(p, first, adds)
    ensures Paid(GrownBy(p, ops), first, adds + Adds(ops))
    decreases |ops|
  {
    if ops != [] {
      StaysPaid(Grown(p, ops[0]), ops[1..], first, adds + if ops[0].Add? then 1 else 0);
    }
  }

  /** From the empty heap, n additions copy fewer than 2n pointers, whatever is popped; the capacity suffices. */
  lemma CopiesAreFew(capacity: nat, ops: seq<Op>)
    requires capacity > 0
    ensures var p := GrownBy(Space(0, capacity, 0), ops);
            p.size <= p.capacity && (Adds(ops) > 0 ==> p.copied < 2 * Adds(ops))
  {
    StaysPaid(Space(0, capacity, 0), ops, capacity, 0);
  }

  // ---------- The code as written ----------

  /** A sinking timer overwrites the one at the place where it ends, and stays where it was. */
  lemma {:induction false} SiftAsWritten(s: seq<HeapTimer>, hole: nat, temp: HeapTimer) returns (end: nat)
    requires hole < |s|
    ensures hole <= end < |s| && SiftDown(AsWritten, s, hole, temp) == s[end := temp]
    ensures end != hole <==> Sinks(s, hole, temp)
    ensures end != hole ==> s[end].expire < temp.expire
    decreases |s| - hole
  {
    end := hole;
    if Sinks(s, hole, temp) {
      end := SiftAsWritten(s, SmallerChild(s, hole), temp);
    }
  }

  /** As written, percolate_down keeps the timers exactly when there is nothing for it to do. */
  lemma PercolateAsWritten(s: seq<HeapTimer>, hole: nat)
    requires hole < |s|
    ensures multiset(Percolated(AsWritten, s, hole)) == multiset(s) <==> !Sinks(s, hole, s[hole])
    ensures !Sinks(s, hole, s[hole]) ==> Percolated(AsWritten, s, hole) == s
    ensures Sinks(s, hole, s[hole]) && Distinct(s) ==>
              exists x :: x in s && x !in Percolated(AsWritten, s, hole)
    ensures forall x :: x in Percolated(AsWritten, s, hole) ==> x in s
  {
    var end := SiftAsWritten(s, hole, s[hole]);
    var r := Percolated(AsWritten, s, hole);
    if end == hole {
      assert r == s;
    } else {
      Replaced(s, end, s[hole]);
      assert multiset(r)[s[hole]] == multiset(s)[s[hole]] + 1;
      if Distinct(s) {
        assert s[end] in s && s[end] !in r;
      }
    }
  }

  lemma {:induction false} BuildWithin(s: seq<HeapTimer>, i: int, x: HeapTimer)
    requires -1 <= i < |s| && x in BuildFrom(AsWritten, s, i)
    ensures x in s
    decreases i + 1
  {
    if i >= 0 {
      BuildWithin(Percolated(AsWritten, s, i), i - 1, x);
      PercolateAsWritten(s, i);
    }
  }

  lemma {:induction false} BuildLoses(s: seq<HeapTimer>, i: int) returns (lost: HeapTimer)
    requires -1 <= i < |s| && HeapFrom(s, i + 1) && !IsHeap(s) && Distinct(s)
    ensures lost in s && lost !in BuildFrom(AsWritten, s, i)
    decreases i + 1
  {
    PercolateAsWritten(s, i);
    if Sinks(s, i, s[i]) {
      var r := Percolated(AsWritten, s, i);
      lost :| lost in s && lost !in r;
      if lost in BuildFrom(AsWritten, r, i - 1) {
        BuildWithin(r, i - 1, lost);
      }
    } else {
      lost := BuildLoses(s, i - 1);
    }
  }

  lemma {:induction false} BuildIdle(s: seq<HeapTimer>, i: int)
    requires -1 <= i < |s| && IsHeap(s)
    ensures BuildFrom(AsWritten, s, i) == s
    decreases i + 1
  {
    if i >= 0 {
      PercolateAsWritten(s, i);
      BuildIdle(s, i - 1);
    }
  }

  /** As written, the array constructor keeps all timers exactly when they are a heap already. */
  lemma BuiltAsWritten(s: seq<HeapTimer>)
    requires Distinct(s)
    ensures multiset(Built(AsWritten, s)) == multiset(s) <==> IsHeap(s)
    ensures IsHeap(s) ==> Built(AsWritten, s) == s
  {
    if s != [] {
      LeavesOrdered(s);
      if IsHeap(s) {
        BuildIdle(s, (|s| - 1) / 2);
      } else {
        var lost := BuildLoses(s, (|s| - 1) / 2);
        assert lost in multiset(s) && lost !in multiset(Built(AsWritten, s));
      }
    }
  }

  /** As written, pop_timer loses a timer exactly when the last timer expires after one of the root's children. */
  lemma PoppedAsWritten(s: seq<HeapTimer>)
    requires s != []
    ensures multiset(Popped(AsWritten, s)) + multiset{s[0]} == multiset(s) <==>
            !(|s| > 2 && exists c :: 0 < c < |s| - 1 && c <= 2 && s[c].expire < s[|s| - 1].expire)
  {
    if |s| == 1 {
      assert s == [s[0]];
    } else {
      hide Percolated, LastToFront, Sinks, IsHeap;
      LastToFrontHas(s);
      PercolateAsWritten(LastToFront(s), 0);
      LastSinks(s);
      Cancelled(multiset(Percolated(AsWritten, LastToFront(s), 0)), multiset(LastToFront(s)), multiset{s[0]});
    }
  }

  lemma LastSinks(s: seq<HeapTimer>)
    requires |s| > 1
    ensures LastToFront(s)[0] == s[|s| - 1]
    ensures Sinks(LastToFront(s), 0, s[|s| - 1]) <==>
            |s| > 2 && exists c :: 0 < c < |s| - 1 && c <= 2 && s[c].expire < s[|s| - 1].expire
  {
    var u := LastToFront(s);
    assert forall j :: 0 < j < |u| ==> u[j] == s[j];
    if |s| > 2 {
      var c := SmallerChild(u, 0);
      assert Parent(1) == 0 && Parent(2) == 0;
      assert 0 < c <= 2 && s[c] == u[c];
    }
  }

  // ---------- Cost ----------

  function Pow2(k: nat): (r: nat)
    ensures r > 0
  {
    if k == 0 then 1 else 2 * Pow2(k - 1)
  }

  /** A timer sinks by at most log2 of the number of timers, and by less from further down. */
  lemma {:induction false} StepsBound(s: seq<HeapTimer>, hole: nat, temp: HeapTimer)
    requires hole < |s|
    ensures Pow2(Steps(s, hole, temp)) * (hole + 1) <= |s|
    decreases |s| - hole
  {
    hide Sinks;
    if Sinks(s, hole, temp) {
      SinksWithin(s, hole, temp);
      var c := SmallerChild(s, hole);
      StepsBound(s, c, temp);
      Halved(Pow2(Steps(s, c, temp)), hole + 1, c + 1, |s|);
    }
  }

  lemma SinksWithin(s: seq<HeapTimer>, hole: nat, temp: HeapTimer)
    requires Sinks(s, hole, temp)
    ensures 2 * hole + 1 < |s| && SmallerChild(s, hole) >= 2 * hole + 1
  {
  }

  lemma Halved(p: nat, a: nat, b: nat, n: nat)
    requires 2 * a <= b && p * b <= n
    ensures (2 * p) * a <= n
  {
    assert p * (b - 2 * a) >= 0;
  }

  /** What is above or at the hole does not matter for the way down. */
  lemma {:induction false} StepsBelow(s: seq<HeapTimer>, hole: nat, temp: HeapTimer, k: nat, x: HeapTimer)
    requires k <= hole && k < |s|
    ensures Steps(s[k := x], hole, temp) == Steps(s, hole, temp)
    decreases |s| - hole
  {
    if 2 * hole + 1 < |s| {
      StepsBelow(s, SmallerChild(s, hole), temp, k, x);
    }
  }
}
