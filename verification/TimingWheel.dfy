/**
The timing wheel in place: sixty doubly linked lists of timers, which tick traverses while it unlinks.
lists[s] is the list of slot s from its head on.

As written, unlinking a timer inside a list makes the prev pointer of its successor point to the successor
itself. Repaired, it points to the timer in front.
*/
module TimingWheel {
  import opened Sequences
  import opened SourceVersion
  import opened WheelTable
  import opened WheelMemory

  /** id stands for the connection data that the timer was set for. */
  class TwTimer {
    const id: int
    const timeSlot: nat
    var rotation: nat
    var next: TwTimer?
    var prev: TwTimer?

    constructor (id: int, rot: nat, ts: nat)
      ensures this.id == id && rotation == rot && timeSlot == ts && next == null && prev == null
    {
      this.id, rotation, timeSlot, next, prev := id, rot, ts, null, null;
    }
  }

  /** The nodes are distinct, and prev and next mirror each other along them. */
  ghost predicate Linked(l: seq<TwTimer>)
    reads l
  {
    && Distinct(l)
    && (forall i, j :: 0 <= i < |l| && 0 <= j < |l| && j == i + 1 ==> l[i].next == l[j] && l[j].prev == l[i])
    && (l != [] ==> l[0].prev == null && l[|l| - 1].next == null)
  }

  ghost function ItemsOf(l: seq<TwTimer>): (t: seq<Item<int>>)
    reads l
    ensures |t| == |l|
    ensures forall i :: 0 <= i < |l| ==> t[i] == Item(l[i].id, l[i].rotation)
  {
    seq(|l|, i requires 0 <= i < |l| reads l => Item(l[i].id, l[i].rotation))
  }

  function Head(l: seq<TwTimer>): TwTimer? {
    if l == [] then null else l[0]
  }

  ghost function ItemsOfAll(lists: seq<seq<TwTimer>>): (t: seq<seq<Item<int>>>)
    reads NodesOf(lists)
    ensures |t| == |lists|
    ensures forall s :: 0 <= s < |lists| ==> t[s] == ItemsOf(lists[s])
  {
    seq(|lists|, s requires 0 <= s < |lists| reads NodesOf(lists) => ItemsOf(lists[s]))
  }

  ghost function NodesOf(lists: seq<seq<TwTimer>>): set<TwTimer> {
    set s, i | 0 <= s < |lists| && 0 <= i < |lists[s]| :: lists[s][i]
  }

  /** Every timer is in the list of its own slot, so that the lists have no node in common. */
  ghost predicate InOwnSlot(lists: seq<seq<TwTimer>>) {
    forall s, i :: 0 <= s < |lists| && 0 <= i < |lists[s]| ==> lists[s][i].timeSlot == s
  }

  ghost predicate AllLinked(lists: seq<seq<TwTimer>>)
    reads NodesOf(lists)
  {
    forall s :: 0 <= s < |lists| ==> Linked(lists[s])
  }

  twostate lemma SameItems(lists: seq<seq<TwTimer>>)
    requires forall s, i :: 0 <= s < |lists| && 0 <= i < |lists[s]| ==>
                              lists[s][i].rotation == old(lists[s][i].rotation)
    ensures ItemsOfAll(lists) == old(ItemsOfAll(lists))
  {
    forall s | 0 <= s < |lists|
      ensures ItemsOf(lists[s]) == old(ItemsOf(lists[s]))
    {
    }
  }

  lemma ItemsReplaced(lists: seq<seq<TwTimer>>, ts: nat, l: seq<TwTimer>)
    requires ts < |lists|
    ensures ItemsOfAll(lists[ts := l]) == ItemsOfAll(lists)[ts := ItemsOf(l)]
  {
  }

  lemma ItemsOfFront(timer: TwTimer, l: seq<TwTimer>)
    ensures ItemsOf([timer] + l) == [Item(timer.id, timer.rotation)] + ItemsOf(l)
  {
  }

  class TimeWheel {
    const slots: array<TwTimer?>
    var curSlot: nat
    ghost var lists: seq<seq<TwTimer>>

    ghost predicate Valid()
      reads this, slots, NodesOf(lists)
    {
      && slots.Length == N && |lists| == N && curSlot < N
      && (forall s :: 0 <= s < N ==> slots[s] == Head(lists[s]))
      && InOwnSlot(lists) && AllLinked(lists)
    }

    ghost function View(): (w: Wheel<int>)
      requires |lists| == N && curSlot < N
      reads this, slots, NodesOf(lists)
      ensures Shape(w)
    {
      Wheel(ItemsOfAll(lists), curSlot)
    }

    constructor ()
      ensures Valid() && fresh(slots)
      ensures View() == Wheel(seq(N, s => []), 0)
    {
      slots := new TwTimer?[N](i => null);
      curSlot := 0;
      lists := seq(N, s => []);
    }

    /** A timer is put in front of the list of its slot. */
    method PushFront(timer: TwTimer)
      requires Valid() && timer.timeSlot < N && timer.next == null && timer.prev == null
      requires timer !in lists[timer.timeSlot]
      modifies slots, this`lists, timer`next, lists[timer.timeSlot]`prev
      ensures Valid() && lists == old(lists)[timer.timeSlot := [timer] + old(lists)[timer.timeSlot]]
    {
      var ts := timer.timeSlot;
      if slots[ts] == null {
        slots[ts] := timer;
      } else {
        timer.next := slots[ts];
        slots[ts].prev := timer;
        slots[ts] := timer;
      }
      ghost var before := lists;
      lists := lists[ts := [timer] + lists[ts]];
      assert Linked(lists[ts]);
      forall s | 0 <= s < N && s != ts
        ensures Linked(lists[s])
      {
        assert old(Linked(before[s]));
      }
    }

    method AddTimer(id: int, timeout: int) returns (timer: TwTimer?)
      requires Valid()
      modifies this, slots, NodesOf(lists)
      ensures Valid()
      ensures timeout < 0 ==> timer == null && View() == old(View())
      ensures timeout >= 0 ==>
                && timer != null && fresh(timer) && timer.id == id && timer.timeSlot < N
                && lists == old(lists)[timer.timeSlot := [timer] + old(lists)[timer.timeSlot]]
                && View() == Added(old(View()), id, timeout)
    {
      hide ItemsOfAll, AllLinked, InOwnSlot;
      if timeout < 0 {
        return null;
      }
      var ticks := 0;
      if timeout >= 1 {
        ticks := timeout / 1;
      }
      var rotation := ticks / N;
      var ts := (curSlot + (ticks % N)) % N;
      timer := new TwTimer(id, rotation, ts);
      ghost var before := lists;
      PushFront(timer);
      SameItems(before);
      ItemsReplaced(before, ts, [timer] + before[ts]);
      ItemsOfFront(timer, before[ts]);
    }

    /** The head of a slot's list is unlinked. */
    method UnlinkHead(ts: nat)
      requires Valid() && ts < N && lists[ts] != []
      modifies slots, this`lists, lists[ts]`prev
      ensures Valid() && lists == old(lists)[ts := old(lists)[ts][1..]]
      ensures slots[ts] == old(lists[ts][0].next)
    {
      ghost var before, l := lists, lists[ts];
      assert |l| > 1 ==> l[0].next == l[1];
      slots[ts] := slots[ts].next;
      if slots[ts] != null {
        slots[ts].prev := null;
      }
      lists := lists[ts := l[1..]];
      assert Linked(lists[ts]);
      forall s | 0 <= s < N && s != ts
        ensures Linked(lists[s])
      {
        assert old(Linked(before[s]));
      }
    }

    /** A timer that is not the head of its list is unlinked. */
    method UnlinkInner(timer: TwTimer, ghost ts: nat, ghost i: nat)
      requires Valid() && ts < N && 0 < i < |lists[ts]| && timer == lists[ts][i]
      modifies this`lists, lists[ts]`prev, lists[ts]`next
      ensures Valid() && lists == old(lists)[ts := old(lists)[ts][..i] + old(lists)[ts][i + 1..]]
      ensures timer.next == old(timer.next)
    {
      ghost var before, l := lists, lists[ts];
      assert l[i - 1].next == l[i] && (i + 1 < |l| ==> l[i].next == l[i + 1]);
      timer.prev.next := timer.next;
      if timer.next != null {
        timer.next.prev := timer.prev;
      }
      lists := lists[ts := l[..i] + l[i + 1..]];
      assert Linked(lists[ts]);
      forall s | 0 <= s < N && s != ts
        ensures Linked(lists[s])
      {
        assert old(Linked(before[s]));
      }
    }

    method DelTimer(timer: TwTimer?, ghost i: nat)
      requires Valid()
      requires timer != null ==> timer.timeSlot < N && i < |lists[timer.timeSlot]| && timer == lists[timer.timeSlot][i]
      modifies this, slots, NodesOf(lists)
      ensures Valid()
      ensures View() == if timer == null then old(View()) else Deleted(old(View()), timer.timeSlot, i)
    {
      hide ItemsOfAll, InOwnSlot;
      if timer != null {
        var ts := timer.timeSlot;
        ghost var before := lists;
        HeadIsFirst(before[ts], i);
        if timer == slots[ts] {
          UnlinkHead(ts);
        } else {
          UnlinkInner(timer, ts, i);
        }
        SameItems(before);
        ItemsReplaced(before, ts, before[ts][..i] + before[ts][i + 1..]);
        ItemsOfRest(before[ts], i);
      }
    }

    /** One round of tick's loop, at the t-th timer of the list s that the slot held at first. */
    method VisitTimer(ver: Version, temp: TwTimer, ghost s: seq<TwTimer>, ghost m: Memory, ghost t: nat)
      returns (next: TwTimer?, fired: seq<int>)
      requires curSlot < slots.Length && Represents(s, m, slots[curSlot])
      requires Unvisited(m, |s|, t) && t < |s| && temp == s[t]
      modifies slots, s
      ensures Represents(s, Visit(ver, m, |s|, t), slots[curSlot])
      ensures forall k :: 0 <= k < slots.Length && k != curSlot ==> slots[k] == old(slots[k])
      ensures next == if t + 1 < |s| then s[t + 1] else null
      ensures fired == if m.rotation[t] == 0 then [temp.id] else []
    {
      fired := [];
      if temp.rotation > 0 {
        temp.rotation := temp.rotation - 1;
        next := temp.next;
      } else {
        fired := [temp.id];
        if temp == slots[curSlot] {
          next := DropHead(ver, temp, s, m, t);
        } else {
          next := DropInner(ver, temp, s, m, t);
        }
      }
    }

    /**
    tick. In every case the callbacks are those of the timers that are due, in list order. The lists are right
    afterwards, except after a tick of the code as written through a slot that SpoilsLinks describes: then a timer
    that is not due has lost the link back to it, and what the slot leads to is no list linked both ways. What it
    leads to is said exactly.
    */
    method Tick(ver: Version) returns (fired: seq<int>)
      requires Valid()
      modifies this, slots, lists[curSlot]
      ensures fired == Due(old(View()).slots[old(curSlot)])
      ensures ver == Repaired || !SpoilsLinks(old(View()).slots[old(curSlot)]) ==>
                Valid() && View() == Ticked(old(View()))
      ensures ver == AsWritten ==>
                Reaches(Stayers(old(lists)[old(curSlot)], old(View()).slots[old(curSlot)]), slots[old(curSlot)])
      ensures ver == AsWritten && SpoilsLinks(old(View()).slots[old(curSlot)]) ==>
                && LosesLink(old(lists)[old(curSlot)], old(View()).slots[old(curSlot)])
                && forall l :: Linked(l) ==> slots[old(curSlot)] != Head(l)
    {
      hide ItemsOfAll, Survivors, Due, Linked, SpoilsLinks, Stayers, Reaches, LosesLink;
      fired := Sweep(ver);
      curSlot := (curSlot + 1) % N;
    }

    /** The traversal of the current slot. */
    method Sweep(ver: Version) returns (fired: seq<int>)
      requires Valid()
      modifies this`lists, slots, lists[curSlot]
      ensures slots.Length == N && curSlot < N
      ensures fired == Due(old(ItemsOfAll(lists)[curSlot]))
      ensures ver == Repaired || !SpoilsLinks(old(ItemsOfAll(lists)[curSlot])) ==>
                && Valid()
                && ItemsOfAll(lists) ==
                   old(ItemsOfAll(lists))[curSlot := Survivors(old(ItemsOfAll(lists)[curSlot]))]
      ensures ver == AsWritten ==>
                Reaches(Stayers(old(lists)[curSlot], old(ItemsOfAll(lists)[curSlot])), slots[curSlot])
      ensures ver == AsWritten && SpoilsLinks(old(ItemsOfAll(lists)[curSlot])) ==>
                && LosesLink(old(lists)[curSlot], old(ItemsOfAll(lists)[curSlot]))
                && forall l :: Linked(l) ==> slots[curSlot] != Head(l)
    {
      hide ItemsOfAll, Survivors, Due, Represents, Sound, SpoilsLinks, Walk, KeptFrom, Rotations, InitialMemory,
           Linked, ItemsOf, InOwnSlot, Stayers, Reaches, LosesLink;
      ghost var s, items, others := lists[curSlot], ItemsOf(lists[curSlot]), ItemsOfAll(lists);
      ghost var m0 := InitialMemory(Rotations(items));
      ListIsMemory(s, items);
      SoundIsUnvisited(m0, |s|);
      InitialRotation(items);
      fired := Traverse(ver, s, items, m0);
      forall k | 0 <= k < N && k != curSlot
        ensures slots[k] == Head(lists[k]) && Linked(lists[k]) && ItemsOf(lists[k]) == others[k]
      {
        NoneShared(lists, k, curSlot);
        assert old(Linked(lists[k]));
      }
      Finish(ver, s, items, others);
    }

    /** What tick's loop has left behind. */
    ghost method Finish(ver: Version, s: seq<TwTimer>, items: seq<Item<int>>, slotsBefore: seq<seq<Item<int>>>)
      requires slots.Length == N && |lists| == N && curSlot < N && InOwnSlot(lists) && |slotsBefore| == N
      requires forall k :: 0 <= k < N && k != curSlot ==> slots[k] == Head(lists[k]) && Linked(lists[k])
      requires forall k :: 0 <= k < N && k != curSlot ==> ItemsOf(lists[k]) == slotsBefore[k]
      requires lists[curSlot] == s && |items| == |s| && forall i :: 0 <= i < |s| ==> s[i].id == items[i].key
      requires Unvisited(InitialMemory(Rotations(items)), |s|, 0)
      requires Represents(s, Walk(ver, InitialMemory(Rotations(items)), |s|, 0), slots[curSlot])
      modifies this`lists
      ensures ver == Repaired || !SpoilsLinks(items) ==>
                Valid() && ItemsOfAll(lists) == slotsBefore[curSlot := Survivors(items)]
      ensures ver == AsWritten ==> Reaches(Stayers(s, items), slots[curSlot])
      ensures ver == AsWritten && SpoilsLinks(items) ==>
                LosesLink(s, items) && forall l :: Linked(l) ==> slots[curSlot] != Head(l)
    {
      hide Linked, ItemsOfAll, Survivors, Represents, Sound, SpoilsLinks, Walk, KeptFrom, Rotations, InOwnSlot,
           AllLinked, InitialMemory, Unvisited, Stayers, LosesLink, Decremented;
      var m := Walk(ver, InitialMemory(Rotations(items)), |s|, 0);
      WalkResult(ver, items);
      if ver == AsWritten {
        StayersReached(s, items, m, slots[curSlot]);
      }
      if ver == Repaired || !SpoilsLinks(items) {
        KeptList(s, items, m, slots[curSlot]);
        Settle(Select(s, KeptFrom(Rotations(items), 0)), slotsBefore);
      }
    }

    /** After a sound traversal the list of the slot is what has been kept of it. */
    ghost method Settle(l: seq<TwTimer>, slotsBefore: seq<seq<Item<int>>>)
      requires slots.Length == N && |lists| == N && curSlot < N && InOwnSlot(lists) && |slotsBefore| == N
      requires forall k :: 0 <= k < N && k != curSlot ==> slots[k] == Head(lists[k]) && Linked(lists[k])
      requires forall k :: 0 <= k < N && k != curSlot ==> ItemsOf(lists[k]) == slotsBefore[k]
      requires (forall t :: t in l ==> t in lists[curSlot]) && Linked(l) && slots[curSlot] == Head(l)
      modifies this`lists
      ensures Valid() && ItemsOfAll(lists) == slotsBefore[curSlot := ItemsOf(l)]
    {
      hide Linked, ItemsOf;
      forall i | 0 <= i < |l|
        ensures l[i].timeSlot == curSlot
      {
        assert l[i] in lists[curSlot];
      }
      lists := lists[curSlot := l];
    }

    /** The loop of tick. */
    method Traverse(ver: Version, ghost s: seq<TwTimer>, ghost items: seq<Item<int>>, ghost m0: Memory)
      returns (fired: seq<int>)
      requires curSlot < slots.Length && Represents(s, m0, slots[curSlot]) && Unvisited(m0, |s|, 0)
      requires m0.head == if s == [] then NIL else 0
      requires items == ItemsOf(s)
      modifies slots, s
      ensures fired == Due(items)
      ensures Represents(s, Walk(ver, m0, |s|, 0), slots[curSlot])
      ensures forall k :: 0 <= k < slots.Length && k != curSlot ==> slots[k] == old(slots[k])
    {
      hide Represents, Unvisited, Visit, Due;
      ghost var m, t := m0, 0;
      NodeAtHead(s, m0, slots[curSlot]);
      fired := [];
      var temp := slots[curSlot];
      assert items[0..] == items;
      while temp != null
        invariant t <= |s| && temp == if t < |s| then s[t] else null
        invariant Represents(s, m, slots[curSlot]) && Unvisited(m, |s|, t)
        invariant Walk(ver, m, |s|, t) == Walk(ver, m0, |s|, 0)
        invariant |m.rotation| == |s| && forall i :: t <= i < |s| ==> m.rotation[i] == items[i].rotation
        invariant Due(items) == fired + Due(items[t..])
        invariant forall k :: 0 <= k < slots.Length && k != curSlot ==> slots[k] == old(slots[k])
        decreases |s| - t
      {
        var more;
        temp, more := VisitTimer(ver, temp, s, m, t);
        DueStep(items, t);
        VisitRotation(ver, m, |s|, t);
        fired := fired + more;
        m, t := Visit(ver, m, |s|, t), t + 1;
      }
      DueOfNothing(items);
    }

    /** A due timer at the head of the list is unlinked. */
    method DropHead(ver: Version, temp: TwTimer, ghost s: seq<TwTimer>, ghost m: Memory, ghost t: nat)
      returns (next: TwTimer?)
      requires curSlot < slots.Length && Represents(s, m, slots[curSlot])
      requires Unvisited(m, |s|, t) && t < |s| && temp == s[t] && temp.rotation == 0 && temp == slots[curSlot]
      modifies slots, s`prev
      ensures Represents(s, Visit(ver, m, |s|, t), slots[curSlot])
      ensures forall k :: 0 <= k < slots.Length && k != curSlot ==> slots[k] == old(slots[k])
      ensures next == At(s, m.next[t])
    {
      assert t == m.head;
      slots[curSlot] := temp.next;
      if slots[curSlot] != null {
        slots[curSlot].prev := null;
      }
      next := slots[curSlot];
    }

    /** A due timer inside the list is unlinked. */
    method DropInner(ver: Version, temp: TwTimer, ghost s: seq<TwTimer>, ghost m: Memory, ghost t: nat)
      returns (next: TwTimer?)
      requires curSlot < slots.Length && Represents(s, m, slots[curSlot])
      requires Unvisited(m, |s|, t) && t < |s| && temp == s[t] && temp.rotation == 0 && temp != slots[curSlot]
      modifies s`prev, s`next
      ensures Represents(s, Visit(ver, m, |s|, t), slots[curSlot])
      ensures next == At(s, m.next[t])
    {
      hide Represents;
      ghost var p, succ := m.prev[t], m.next[t];
      NodeAt(s, m, slots[curSlot], t);
      SetNext(temp.prev, temp.next, s, m, slots[curSlot], p, succ);
      ghost var m1 := m.(next := m.next[p := succ]);
      NodeAt(s, m1, slots[curSlot], t);
      if temp.next != null {
        SetPrev(temp.next, if ver == AsWritten then temp.next else temp.prev,
                s, m1, slots[curSlot], succ, if ver == AsWritten then succ else p);
      }
      next := temp.next;
    }
  }

  /** node->next = target */
  method SetNext(node: TwTimer, target: TwTimer?, ghost s: seq<TwTimer>, ghost m: Memory, ghost head: TwTimer?,
                 ghost p: nat, ghost k: int)
    requires Represents(s, m, head) && p < |s| && node == s[p] && NIL <= k < |s| && target == At(s, k)
    modifies node`next
    ensures Represents(s, m.(next := m.next[p := k]), head) && node.next == target
  {
    node.next := target;
  }

  /** node->prev = target */
  method SetPrev(node: TwTimer, target: TwTimer?, ghost s: seq<TwTimer>, ghost m: Memory, ghost head: TwTimer?,
                 ghost p: nat, ghost k: int)
    requires Represents(s, m, head) && p < |s| && node == s[p] && NIL <= k < |s| && target == At(s, k)
    modifies node`prev
    ensures Represents(s, m.(prev := m.prev[p := k]), head) && node.prev == target
  {
    node.prev := target;
  }

  lemma NodeAt(s: seq<TwTimer>, m: Memory, head: TwTimer?, t: nat)
    requires Represents(s, m, head) && t < |s|
    ensures Shaped(m, |s|) && head == At(s, m.head) && Distinct(s)
    ensures NIL <= m.next[t] < |s| && NIL <= m.prev[t] < |s|
    ensures s[t].next == At(s, m.next[t]) && s[t].prev == At(s, m.prev[t]) && s[t].rotation == m.rotation[t]
  {
  }

  lemma NodeAtHead(s: seq<TwTimer>, m: Memory, head: TwTimer?)
    requires Represents(s, m, head)
    ensures |m.rotation| == |s| && NIL <= m.head < |s| && head == At(s, m.head)
    ensures forall i :: 0 <= i < |s| ==> m.rotation[i] == s[i].rotation
  {
  }

  /** The timers of s at the places k. */
  ghost function Select(s: seq<TwTimer>, k: seq<int>): (l: seq<TwTimer>)
    requires forall i :: 0 <= i < |k| ==> 0 <= k[i] < |s|
    ensures |l| == |k| && forall i :: 0 <= i < |k| ==> l[i] == s[k[i]]
  {
    seq(|k|, i requires 0 <= i < |k| => s[k[i]])
  }

  lemma ListIsMemory(s: seq<TwTimer>, items: seq<Item<int>>)
    requires Linked(s) && items == ItemsOf(s)
    ensures Represents(s, InitialMemory(Rotations(items)), Head(s))
    ensures Sound(InitialMemory(Rotations(items)), |s|, 0, [])
  {
    InitialSound(Rotations(items));
  }

  /** The list that is in the memory is linked in the heap. */
  lemma MemoryIsList(s: seq<TwTimer>, m: Memory, head: TwTimer?, k: seq<int>)
    requires Represents(s, m, head) && Sound(m, |s|, |s|, k)
    ensures Linked(Select(s, k)) && head == Head(Select(s, k))
  {
    hide Represents, Linked, Select, Unvisited, IsList, Increasing, Range;
    assert k + Range(|s|, |s|) == k;
    ListIsLinked(s, m, head, k);
  }

  lemma ListIsLinked(s: seq<TwTimer>, m: Memory, head: TwTimer?, k: seq<int>)
    requires Represents(s, m, head) && IsList(m, |s|, k) && Increasing(k)
    ensures Linked(Select(s, k)) && head == Head(Select(s, k))
  {
    var l := Select(s, k);
    forall i, j | 0 <= i < j < |l|
      ensures l[i] != l[j]
    {
      assert k[i] < k[j];
    }
  }

  /** The timers of a slot that a tick as written leaves reachable from it. */
  ghost function Stayers(s: seq<TwTimer>, items: seq<Item<int>>): (l: seq<TwTimer>)
    requires |s| == |items|
  {
    StayIn(Rotations(items), 0);
    Select(s, StayFrom(Rotations(items), 0))
  }

  /** The next pointers lead from head through l, and no further. */
  ghost predicate Reaches(l: seq<TwTimer>, head: TwTimer?)
    reads l
  {
    && head == Head(l)
    && (forall i, j :: 0 <= i < |l| && 0 <= j < |l| && j == i + 1 ==> l[i].next == l[j])
    && (l != [] ==> l[|l| - 1].next == null)
  }

  /** A timer that is not due is followed by one that does not point back to it. */
  ghost predicate LosesLink(s: seq<TwTimer>, items: seq<Item<int>>)
    requires |s| == |items|
    reads s, set i | 0 <= i < |s| && s[i].next != null :: s[i].next
  {
    exists i :: 0 <= i < |s| && items[i].rotation > 0 && s[i].next != null && s[i].next.prev != s[i]
  }

  /** How the traversal ends, in both versions. */
  lemma WalkResult(ver: Version, items: seq<Item<int>>)
    requires Unvisited(InitialMemory(Rotations(items)), |items|, 0)
    ensures var r0 := Rotations(items);
            var m := Walk(ver, InitialMemory(r0), |items|, 0);
            && Decremented(r0, m.rotation, |items|)
            && (ver == AsWritten ==> AsWrittenEnd(r0, m, StayFrom(r0, 0)))
            && (ver == Repaired || !SpoilsLinks(items) ==> Sound(m, |items|, |items|, KeptFrom(r0, 0)))
  {
    hide Rotations, SpoilsLinks, Spoils, Walk, KeptFrom, StayFrom, Sound, InitialMemory, Forward, IsList, Unvisited;
    var r0 := Rotations(items);
    SpoilsSlot(items);
    if ver == AsWritten {
      AsWrittenWalk(r0);
    } else {
      InitialSound(r0);
      InitialTrail(r0);
      WholeWalk(r0, InitialMemory(r0), 0, []);
      EmptyFront(KeptFrom(r0, 0));
    }
  }

  lemma StayersReached(s: seq<TwTimer>, items: seq<Item<int>>, m: Memory, head: TwTimer?)
    requires |items| == |s| && Represents(s, m, head)
    requires AsWrittenEnd(Rotations(items), m, StayFrom(Rotations(items), 0))
    ensures Reaches(Stayers(s, items), head)
    ensures SpoilsLinks(items) ==> LosesLink(s, items) && forall l :: Linked(l) ==> head != Head(l)
  {
    hide SpoilsLinks, Spoils, StayFrom, Stays, IsList, KeptFrom, Sound, BackOf, Linked;
    var r0 := Rotations(items);
    var k, l := StayFrom(r0, 0), Stayers(s, items);
    StayIn(r0, 0);
    ForwardReaches(s, m, head, k);
    SpoilsSlot(items);
    if SpoilsLinks(items) {
      var a, b :| b == a + 1 && 0 <= a && b < |k| && r0[k[a]] > 0 && m.prev[k[b]] != k[a];
      LostAt(s, m, head, k, a);
      assert items[k[a]].rotation > 0 && l[a] == s[k[a]];
      forall u | Linked(u)
        ensures head != Head(u)
      {
        NotLinked(l, head, u, a);
      }
    }
  }

  lemma ForwardReaches(s: seq<TwTimer>, m: Memory, head: TwTimer?, k: seq<int>)
    requires Represents(s, m, head) && Forward(m, |s|, k)
    ensures Reaches(Select(s, k), head)
  {
  }

  lemma LostAt(s: seq<TwTimer>, m: Memory, head: TwTimer?, k: seq<int>, a: nat)
    requires Represents(s, m, head) && Forward(m, |s|, k) && a + 1 < |k| && m.prev[k[a + 1]] != k[a]
    ensures s[k[a]].next == s[k[a + 1]] && s[k[a + 1]].prev != s[k[a]]
  {
    assert m.next[k[a]] == k[a + 1];
    assert NIL <= m.prev[k[a + 1]] < |s|;
  }

  /** No list that is linked both ways begins where a forward list begins that has lost a link back. */
  lemma NotLinked(l: seq<TwTimer>, head: TwTimer?, u: seq<TwTimer>, a: nat)
    requires Reaches(l, head) && Linked(u) && a + 1 < |l| && l[a + 1].prev != l[a]
    ensures head != Head(u)
  {
    if head == Head(u) {
      SameNodes(l, head, u, a + 1);
      SameNodes(l, head, u, a);
    }
  }

  lemma {:induction false} SameNodes(l: seq<TwTimer>, head: TwTimer?, u: seq<TwTimer>, k: nat)
    requires Reaches(l, head) && Linked(u) && head == Head(u) && k < |l|
    ensures k < |u| && u[k] == l[k]
  {
    if k > 0 {
      SameNodes(l, head, u, k - 1);
      assert l[k - 1].next == l[k];
      assert k < |u| ==> u[k - 1].next == u[k];
    }
  }

  lemma VisitRotation(ver: Version, m: Memory, n: nat, t: nat)
    requires Unvisited(m, n, t) && t < n
    ensures var r := Visit(ver, m, n, t);
            |r.rotation| == |m.rotation| == n && forall i :: t < i < n ==> r.rotation[i] == m.rotation[i]
  {
  }

  lemma DueStep(slot: seq<Item<int>>, j: nat)
    requires j < |slot|
    ensures Due(slot[j..]) == (if slot[j].rotation == 0 then [slot[j].key] else []) + Due(slot[j + 1..])
  {
    assert slot[j..][0] == slot[j] && slot[j..][1..] == slot[j + 1..];
  }

  lemma DueOfNothing(slot: seq<Item<int>>)
    ensures Due(slot[|slot|..]) == []
  {
  }

  lemma InitialRotation(items: seq<Item<int>>)
    ensures var m := InitialMemory(Rotations(items));
            m.rotation == Rotations(items) && m.head == if items == [] then NIL else 0
  {
  }

  lemma NoneShared(lists: seq<seq<TwTimer>>, k: nat, k': nat)
    requires InOwnSlot(lists) && k < |lists| && k' < |lists| && k != k'
    ensures forall i :: 0 <= i < |lists[k]| ==> lists[k][i] !in lists[k']
  {
  }

  lemma KeptList(s: seq<TwTimer>, items: seq<Item<int>>, m: Memory, head: TwTimer?)
    requires Represents(s, m, head) && |items| == |s| && forall i :: 0 <= i < |s| ==> s[i].id == items[i].key
    requires Sound(m, |s|, |s|, KeptFrom(Rotations(items), 0)) && Decremented(Rotations(items), m.rotation, |s|)
    ensures var k := KeptFrom(Rotations(items), 0);
            && (forall i :: 0 <= i < |k| ==> 0 <= k[i] < |s|)
            && Linked(Select(s, k)) && head == Head(Select(s, k)) && ItemsOf(Select(s, k)) == Survivors(items)
            && forall t :: t in Select(s, k) ==> t in s
  {
    hide Linked, Sound, KeptFrom, Rotations, Survivors, Represents, Decremented, Select, ItemsOf, Head;
    var k := KeptFrom(Rotations(items), 0);
    KeptIn(Rotations(items), 0);
    MemoryIsList(s, m, head, k);
    NodeAtHead(s, m, head);
    KeptItems(s, items, m.rotation);
  }

  lemma KeptItems(s: seq<TwTimer>, items: seq<Item<int>>, r: seq<nat>)
    requires |items| == |s| == |r| && Decremented(Rotations(items), r, |s|)
    requires forall i :: 0 <= i < |s| ==> s[i].id == items[i].key && s[i].rotation == r[i]
    requires var k := KeptFrom(Rotations(items), 0);
             forall i :: 0 <= i < |k| ==> 0 <= k[i] < |s|
    ensures ItemsOf(Select(s, KeptFrom(Rotations(items), 0))) == Survivors(items)
  {
    hide KeptFrom, Survivors;
    SurvivorsAre(items, 0);
    assert items[0..] == items;
  }

  lemma SoundIsUnvisited(m: Memory, n: nat)
    requires Sound(m, n, 0, [])
    ensures Unvisited(m, n, 0)
  {
  }

  lemma {:induction false} SurvivorsAre(items: seq<Item<int>>, t: nat)
    requires t <= |items|
    ensures var k, u := KeptFrom(Rotations(items), t), Survivors(items[t..]);
            && |u| == |k|
            && forall i :: 0 <= i < |k| ==> t <= k[i] < |items| && items[k[i]].rotation > 0 &&
                                            u[i] == Item(items[k[i]].key, items[k[i]].rotation - 1)
    decreases |items| - t
  {
    if t < |items| {
      assert items[t..][0] == items[t] && items[t..][1..] == items[t + 1..];
      SurvivorsAre(items, t + 1);
    }
  }

  lemma SpoilsSlot(items: seq<Item<int>>)
    ensures SpoilsLinks(items) <==> Spoils(Rotations(items))
  {
    var r := Rotations(items);
    if SpoilsLinks(items) {
      var i, k :| 0 <= i < k && k + 1 < |items| && items[i].rotation > 0 && items[k].rotation == 0;
      assert r[k] == 0 && r[i] > 0;
    }
    if Spoils(r) {
      var i, k :| 0 <= i < k && k + 1 < |r| && r[i] > 0 && r[k] == 0;
      assert items[i].rotation > 0 && items[k].rotation == 0;
    }
  }

  ghost function At(s: seq<TwTimer>, k: int): TwTimer?
    requires NIL <= k < |s|
  {
    if k == NIL then null else s[k]
  }

  /** The pointers of the nodes s and of their slot are those of m. */
  ghost predicate Represents(s: seq<TwTimer>, m: Memory, head: TwTimer?)
    reads s
  {
    && Distinct(s) && Shaped(m, |s|) && head == At(s, m.head)
    && (forall i :: 0 <= i < |s| ==>
         && NIL <= m.next[i] < |s| && NIL <= m.prev[i] < |s|
         && s[i].next == At(s, m.next[i]) && s[i].prev == At(s, m.prev[i]) && s[i].rotation == m.rotation[i])
  }

  lemma HeadIsFirst(l: seq<TwTimer>, i: nat)
    requires Linked(l) && i < |l|
    ensures l[i] == Head(l) <==> i == 0
    ensures i == 0 ==> l[..i] + l[i + 1..] == l[1..]
  {
  }

  lemma ItemsOfRest(l: seq<TwTimer>, i: nat)
    requires i < |l|
    ensures ItemsOf(l[..i] + l[i + 1..]) == ItemsOf(l)[..i] + ItemsOf(l)[i + 1..]
  {
  }
}
