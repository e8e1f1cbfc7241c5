/**
The growable binary heap of timers in its array. View is the first cur_size entries; a ghost counter records
how many pointers resize has copied.
*/
module TimeHeap {
  import opened SourceVersion
  import opened HeapOrder

  /** The first n entries of an array. */
  ghost function TimersOf(a: array<HeapTimer?>, n: nat): (s: seq<HeapTimer>)
    requires n <= a.Length && forall i :: 0 <= i < n ==> a[i] != null
    reads a
    ensures |s| == n && forall i :: 0 <= i < n ==> s[i] == a[i]
  {
    a[..n]
  }

  class TimeHeap {
    var slots: array<HeapTimer?>
    var capacity: nat
    var curSize: nat
    ghost var copied: nat

    ghost predicate Shape()
      reads this, slots
    {
      && capacity == slots.Length && curSize <= capacity
      && forall i :: 0 <= i < curSize ==> slots[i] != null
    }

    ghost function Use(): Space
      reads this
    {
      Space(curSize, capacity, copied)
    }

    ghost predicate Valid()
      reads this, slots
    {
      Shape() && IsHeap(View())
    }

    ghost function View(): (s: seq<HeapTimer>)
      requires Shape()
      reads this, slots
      ensures |s| == curSize
      ensures forall i :: 0 <= i < curSize ==> s[i] == slots[i]
    {
      TimersOf(slots, curSize)
    }

    constructor (cap: nat)
      ensures Valid() && View() == [] && Use() == Space(0, cap, 0) && fresh(slots)
    {
      slots := new HeapTimer?[cap](i => null);
      capacity, curSize, copied := cap, 0, 0;
    }

    /** From the first size timers of an array; there must be room for them. */
    constructor FromArray(ver: Version, initArray: array<HeapTimer?>, size: nat, cap: nat)
      requires size <= cap && size <= initArray.Length && forall i :: 0 <= i < size ==> initArray[i] != null
      ensures Shape() && fresh(slots) && Use() == Space(size, cap, 0)
      ensures View() == Built(ver, TimersOf(initArray, size))
      ensures ver == Repaired ==> Valid()
    {
      slots := new HeapTimer?[cap](i => null);
      capacity, curSize, copied := cap, size, 0;
      new;
      if size != 0 {
        CopyFrom(initArray);
        assert View() == TimersOf(initArray, size);
        SiftAll(ver);
        BuiltIsHeap(TimersOf(initArray, size));
      }
    }

    method CopyFrom(initArray: array<HeapTimer?>)
      requires curSize <= slots.Length && curSize <= initArray.Length && slots != initArray
      modifies slots
      ensures forall k :: 0 <= k < curSize ==> slots[k] == initArray[k]
    {
      for i := 0 to curSize
        invariant forall k :: 0 <= k < i ==> slots[k] == initArray[k]
      {
        slots[i] := initArray[i];
      }
    }

    /** The loop of the array constructor, from the last parent to the root. */
    method SiftAll(ver: Version)
      requires Shape() && curSize > 0
      modifies slots
      ensures Shape() && View() == Built(ver, old(View()))
    {
      var i: int := (curSize - 1) / 2;
      while i >= 0
        invariant -1 <= i < curSize && Shape()
        invariant BuildFrom(ver, View(), i) == Built(ver, old(View()))
      {
        ghost var steps := PercolateDown(ver, i);
        i := i - 1;
      }
    }

    method PercolateDown(ver: Version, start: nat) returns (ghost steps: nat)
      requires Shape() && start < curSize
      modifies slots
      ensures Shape() && View() == Percolated(ver, old(View()), start)
      ensures Pow2(steps) <= curSize
    {
      hide Pow2, SiftDown, Steps, Sinks;
      ghost var s0 := View();
      var temp: HeapTimer := slots[start];
      var hole := start;
      RootBound(s0, start, temp);
      steps := 0;
      while hole * 2 + 1 <= curSize - 1
        invariant hole < curSize && Shape()
        invariant SiftDown(ver, View(), hole, temp) == Percolated(ver, s0, start)
        invariant steps + Steps(View(), hole, temp) == Steps(s0, start, temp)
        decreases curSize - hole
      {
        ghost var s := View();
        SiftStep(ver, s, hole, temp);
        var child := hole * 2 + 1;
        if child < curSize - 1 && slots[child + 1].expire < slots[child].expire {
          child := child + 1;
        }
        if slots[child].expire < temp.expire {
          if ver == Repaired {
            Store(hole, slots[child]);
          }
        } else {
          break;
        }
        hole, steps := child, steps + 1;
      }
      SiftEnds(ver, View(), hole, temp);
      Store(hole, temp);
    }

    method Store(i: nat, timer: HeapTimer)
      requires Shape() && i < curSize
      modifies slots
      ensures Shape() && View() == old(View())[i := timer]
    {
      slots[i] := timer;
    }

    method AddTimer(timer: HeapTimer?)
      requires Valid() && capacity > 0
      modifies this, slots
      ensures Valid() && capacity > 0
      ensures timer == null ==> View() == old(View()) && Use() == old(Use())
      ensures timer != null ==> View() == Added(old(View()), timer) && Use() == Grown(old(Use()), Add(timer))
    {
      hide IsHeap, Added;
      if timer == null {
        return;
      }
      AddedKeeps(View(), timer);
      MakeRoom();
      curSize := curSize + 1;
      SiftUpFrom(timer, old(View()));
    }

    /** There is room for one more timer. */
    method MakeRoom()
      requires Valid() && capacity > 0
      modifies this`slots, this`capacity, this`copied
      ensures Shape() && View() == old(View()) && curSize < capacity
      ensures fresh(slots) || slots == old(slots)
      ensures Use() == if old(curSize) < old(capacity) then old(Use())
                       else Space(old(curSize), 2 * old(capacity), old(copied) + old(curSize))
    {
      hide IsHeap;
      if curSize >= capacity {
        Resize();
      }
    }

    /** The new timer rises from the place behind the last one. */
    method SiftUpFrom(timer: HeapTimer, ghost s0: seq<HeapTimer>)
      requires 0 < curSize <= capacity == slots.Length && |s0| == curSize - 1
      requires forall i :: 0 <= i < curSize - 1 ==> slots[i] == s0[i]
      modifies slots
      ensures Shape() && View() == Added(s0, timer)
    {
      hide SiftUp;
      var hole: nat := curSize - 1;
      ghost var s: seq<HeapTimer> := s0 + [timer];
      while hole > 0
        invariant hole < curSize == |s|
        invariant forall i :: 0 <= i < curSize && i != hole ==> slots[i] == s[i]
        invariant SiftUp(s, hole, timer) == Added(s0, timer)
      {
        RiseStep(s, hole, timer);
        var parent := (hole - 1) / 2;
        if slots[parent].expire <= timer.expire {
          break;
        }
        slots[hole] := slots[parent];
        s := s[hole := s[parent]];
        hole := parent;
      }
      RiseStep(s, hole, timer);
      slots[hole] := timer;
      assert View() == s[hole := timer];
    }

    /** The capacity is doubled. */
    method Resize()
      requires Valid() && curSize == capacity > 0
      modifies this`slots, this`capacity, this`copied
      ensures Shape() && fresh(slots) && View() == old(View())
      ensures Use() == Space(curSize, 2 * old(capacity), old(copied) + curSize)
    {
      var temp := new HeapTimer?[2 * capacity](i => null);
      capacity := 2 * capacity;
      for i := 0 to curSize
        invariant forall k :: 0 <= k < i ==> temp[k] == slots[k]
        invariant copied == old(copied) + i
        modifies this`copied, temp
      {
        temp[i] := slots[i];
        copied := copied + 1;
      }
      slots := temp;
    }

    /** Lazy deletion: the timer stays in the heap, with its callback cleared. */
    method DelTimer(timer: HeapTimer?)
      requires Valid()
      modifies timer
      ensures Valid() && View() == old(View())
      ensures timer != null ==> !timer.armed
    {
      if timer != null {
        timer.armed := false;
      }
    }

    method Top() returns (timer: HeapTimer?)
      requires Valid()
      ensures timer == if View() == [] then null else View()[0]
      ensures timer != null ==> forall k :: 0 <= k < curSize ==> timer.expire <= View()[k].expire
    {
      if curSize == 0 {
        return null;
      }
      forall k | 0 <= k < curSize
        ensures View()[0].expire <= View()[k].expire
      {
        TopIsFirst(View(), k);
      }
      return slots[0];
    }

    method PopTimer(ver: Version)
      requires Valid()
      modifies this`curSize, slots
      ensures Shape() && Use() == Grown(old(Use()), Pop)
      ensures old(View()) == [] ==> View() == []
      ensures old(View()) != [] ==> View() == Popped(ver, old(View()))
      ensures ver == Repaired ==> Valid()
    {
      hide IsHeap, Percolated;
      if curSize == 0 {
        return;
      }
      ghost var s0 := View();
      PoppedKeeps(s0);
      curSize := curSize - 1;
      slots[0] := slots[curSize];
      if curSize == 0 {
        return;
      }
      assert View() == LastToFront(s0);
      ghost var steps := PercolateDown(ver, 0);
    }
  }

  lemma RootBound(s: seq<HeapTimer>, hole: nat, temp: HeapTimer)
    requires hole < |s|
    ensures Pow2(Steps(s, hole, temp)) <= |s|
  {
    StepsBound(s, hole, temp);
    assert Pow2(Steps(s, hole, temp)) * hole >= 0;
  }

  lemma SiftStep(ver: Version, s: seq<HeapTimer>, hole: nat, temp: HeapTimer)
    requires 2 * hole + 1 < |s|
    ensures var c := SmallerChild(s, hole);
            var t := if ver == AsWritten then s else s[hole := s[c]];
            if s[c].expire < temp.expire then
              && SiftDown(ver, s, hole, temp) == SiftDown(ver, t, c, temp)
              && Steps(s, hole, temp) == 1 + Steps(t, c, temp)
            else !Sinks(s, hole, temp)
  {
    var c := SmallerChild(s, hole);
    StepsBelow(s, c, temp, hole, s[c]);
  }

  lemma SiftEnds(ver: Version, s: seq<HeapTimer>, hole: nat, temp: HeapTimer)
    requires hole < |s| && (2 * hole + 1 < |s| ==> !Sinks(s, hole, temp))
    ensures SiftDown(ver, s, hole, temp) == s[hole := temp] && Steps(s, hole, temp) == 0
  {
  }

  lemma RiseStep(s: seq<HeapTimer>, hole: nat, timer: HeapTimer)
    requires hole < |s|
    ensures SiftUp(s, hole, timer) ==
            if hole > 0 && timer.expire < s[Parent(hole)].expire
            then SiftUp(s[hole := s[Parent(hole)]], Parent(hole), timer) else s[hole := timer]
  {
  }
}
