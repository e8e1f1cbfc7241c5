/**
The ascending doubly linked timer list, relinked in place. spine is the list of nodes from head to tail.
*/
module TimerList {
  import opened Sequences
  import opened SourceVersion
  import opened TimerTable

  /** fd is the descriptor of the connection that the timer guards. */
  class UtilTimer {
    const fd: int
    ghost const serial: nat
    var expire: int
    var prev: UtilTimer?
    var next: UtilTimer?

    ghost function User(): Owner {
      Owner(fd, serial)
    }

    constructor (fd: int, ghost serial: nat, expire: int)
      ensures User() == Owner(fd, serial) && this.expire == expire && prev == null && next == null
    {
      this.fd, this.serial, this.expire, prev, next := fd, serial, expire, null, null;
    }
  }

  /** The entries of the nodes of a list. */
  ghost function TableOf(spine: seq<UtilTimer>): (t: seq<Entry<Owner>>)
    reads spine
    ensures |t| == |spine|
    ensures forall i :: 0 <= i < |spine| ==> t[i] == Entry(spine[i].User(), spine[i].expire)
  {
    seq(|spine|, i requires 0 <= i < |spine| reads spine => Entry(spine[i].User(), spine[i].expire))
  }

  /** The nodes are distinct, and prev and next mirror each other along them. */
  ghost predicate Linked(spine: seq<UtilTimer>)
    reads spine
  {
    && Distinct(spine)
    && (forall i, j :: 0 <= i < |spine| && 0 <= j < |spine| && j == i + 1 ==>
         spine[i].next == spine[j] && spine[j].prev == spine[i])
    && (spine != [] ==> spine[0].prev == null && spine[|spine| - 1].next == null)
  }

  twostate lemma SameEntries(spine: seq<UtilTimer>)
    requires forall i :: 0 <= i < |spine| ==> spine[i].expire == old(spine[i].expire)
    ensures TableOf(spine) == old(TableOf(spine))
  {
  }

  lemma TableOfRest(spine: seq<UtilTimer>, i: nat)
    requires i < |spine|
    ensures TableOf(spine[..i] + spine[i + 1..]) == RemoveAt(TableOf(spine), i)
    ensures TableOf(spine[..i]) == TableOf(spine)[..i]
    ensures TableOf(spine[i..]) == TableOf(spine)[i..]
    ensures TableOf(spine[i + 1..]) == TableOf(spine)[i + 1..]
  {
  }

  lemma TableOfFront(timer: UtilTimer, spine: seq<UtilTimer>)
    ensures TableOf([timer] + spine) == [Entry(timer.User(), timer.expire)] + TableOf(spine)
  {
  }

  lemma TableOfOne(timer: UtilTimer)
    ensures TableOf([timer]) == [Entry(timer.User(), timer.expire)]
  {
  }

  lemma TableOfSpliced(spine: seq<UtilTimer>, timer: UtilTimer, j: nat)
    requires j <= |spine|
    ensures var t := TableOf(spine);
            TableOf(spine[..j] + [timer] + spine[j..]) == t[..j] + [Entry(timer.User(), timer.expire)] + t[j..]
  {
    SplicedAt(spine, timer, j);
    SplicedAt(TableOf(spine), Entry(timer.User(), timer.expire), j);
  }

  class SortTimerList {
    var head: UtilTimer?
    var tail: UtilTimer?
    ghost var spine: seq<UtilTimer>

    /** tail is left dangling when the list becomes empty. */
    ghost predicate Ends()
      reads this
    {
      if spine == [] then head == null else head == spine[0] && tail == spine[|spine| - 1]
    }

    /** All but the tail of a list of one, which the next insertion behind it sets. */
    ghost predicate EndsForAppend()
      reads this
    {
      Ends() || (|spine| == 1 && head == spine[0])
    }

    ghost predicate Valid()
      reads this, spine
    {
      Ends() && Linked(spine) && Sorted(TableOf(spine))
    }

    ghost function Table(): (t: seq<Entry<Owner>>)
      reads this, spine
      ensures |t| == |spine|
      ensures forall i :: 0 <= i < |spine| ==> t[i] == Entry(spine[i].User(), spine[i].expire)
    {
      TableOf(spine)
    }

    constructor ()
      ensures Valid() && Table() == []
    {
      head, tail, spine := null, null, [];
    }

    /** The public add_timer. */
    method AddTimer(timer: UtilTimer?)
      requires Valid()
      requires timer != null ==> timer !in spine && timer.prev == null && timer.next == null
      modifies this, spine, timer
      ensures Valid()
      ensures timer == null ==> spine == old(spine) && Table() == old(Table())
      ensures timer != null ==> timer.expire == old(timer.expire)
      ensures timer != null ==> Table() == Insert(old(Table()), Entry(timer.User(), timer.expire))
      ensures forall t :: t in spine ==> t in old(spine) || t == timer
    {
      hide Insert, Sorted, Linked, TableOf;
      if timer == null {
        return;
      }
      ghost var before, x, s := Table(), Entry(timer.User(), timer.expire), spine;
      InsertSorted(before, x);
      if head == null {
        head, tail := timer, timer;
        spine := [timer];
        InsertAt(before, x, 0);
        SingleLinked(timer);
        TableOfFront(timer, s);
        assert [timer] + s == [timer];
        return;
      }
      if timer.expire < head.expire {
        InsertAt(before, x, 0);
        LinkFirst(timer);
        SameEntries(s);
        TableOfFront(timer, s);
        return;
      }
      AddTimerFrom(timer, head, 0);
    }

    /** The timer is put in front of the list. */
    method LinkFirst(timer: UtilTimer)
      requires Ends() && Linked(spine) && spine != []
      requires timer !in spine && timer.prev == null
      modifies this`head, this`spine, spine`prev, timer`next
      ensures Ends() && Linked(spine) && spine == [timer] + old(spine)
    {
      timer.next := head;
      head.prev := timer;
      head := timer;
      spine := [timer] + spine;
    }

    /** The timer is put behind prev and in front of tmp, or at the end of the list. */
    method LinkBehind(timer: UtilTimer, prev: UtilTimer, tmp: UtilTimer?, ghost j: nat)
      requires EndsForAppend() && Linked(spine) && timer !in spine && 1 <= j <= |spine|
      requires Ends() || j == |spine|
      requires prev == spine[j - 1] && tmp == if j == |spine| then null else spine[j]
      modifies this`tail, this`spine, spine`prev, spine`next, timer`prev, timer`next
      ensures Ends() && Linked(spine) && spine == old(spine)[..j] + [timer] + old(spine)[j..]
    {
      if tmp != null {
        prev.next := timer;
        timer.next := tmp;
        tmp.prev := timer;
        timer.prev := prev;
      } else {
        prev.next := timer;
        timer.prev := prev;
        timer.next := null;
        tail := timer;
      }
      ghost var s := spine;
      spine := s[..j] + [timer] + s[j..];
      SplicedAt(s, timer, j);
    }

    /**
    The private add_timer: tmp starts at the second node of the list, whatever node lstHead is; prev starts at
    lstHead. p is the place of lstHead in the list.
    */
    method AddTimerFrom(timer: UtilTimer, lstHead: UtilTimer, ghost p: nat)
      requires EndsForAppend() && Linked(spine) && Sorted(Table()) && timer !in spine
      requires p < |spine| && lstHead == spine[p] && lstHead.expire <= timer.expire
      modifies this, spine, timer
      ensures Valid()
      ensures timer.expire == old(timer.expire)
      ensures Table() == Insert(old(Table()), Entry(timer.User(), timer.expire))
      ensures forall t :: t in spine ==> t in old(spine) || t == timer
    {
      hide Insert;
      var prev := lstHead;
      var tmp := head.next;
      ghost var j := 1;
      ghost var before, x := Table(), Entry(timer.User(), timer.expire);
      assert before[0].expire <= before[p].expire;
      assert p >= 1 ==> before[1].expire <= before[p].expire;
      while tmp != null
        invariant 1 <= j <= |spine| && tmp == if j == |spine| then null else spine[j]
        invariant forall i :: 0 <= i < j ==> before[i].expire <= timer.expire
        invariant prev == if j == 1 then lstHead else spine[j - 1]
        decreases |spine| - j
      {
        if timer.expire < tmp.expire {
          break;
        }
        prev := tmp;
        tmp := tmp.next;
        j := j + 1;
      }
      PlaceBehind(timer, prev, tmp, j);
    }

    /** Linking behind prev is the insertion, if j is where the timer belongs. */
    method PlaceBehind(timer: UtilTimer, prev: UtilTimer, tmp: UtilTimer?, ghost j: nat)
      requires EndsForAppend() && Linked(spine) && Sorted(Table()) && timer !in spine && 1 <= j <= |spine|
      requires prev == spine[j - 1] && tmp == if j == |spine| then null else spine[j]
      requires forall i :: 0 <= i < j ==> Table()[i].expire <= timer.expire
      requires tmp != null ==> timer.expire < tmp.expire
      modifies this, spine, timer
      ensures Valid()
      ensures timer.expire == old(timer.expire)
      ensures Table() == Insert(old(Table()), Entry(timer.User(), timer.expire))
      ensures forall t :: t in spine ==> t in old(spine) || t == timer
    {
      hide Insert, Sorted, Linked, TableOf;
      ghost var before, x, s := Table(), Entry(timer.User(), timer.expire), spine;
      InsertAt(before, x, j);
      InsertSorted(before, x);
      LinkBehind(timer, prev, tmp, j);
      SameEntries(s);
      TableOfSpliced(s, timer, j);
    }

    /** adjust_timer, for the timer at place i whose expiry time has just been extended. */
    method AdjustTimer(ver: Version, timer: UtilTimer?, ghost i: nat)
      requires Ends() && Linked(spine)
      requires timer == null ==> Valid()
      requires timer != null ==> i < |spine| && timer == spine[i] && Extended(Table(), i)
      modifies this, spine
      ensures Valid()
      ensures Table() == if timer == null then old(Table()) else Adjusted(ver, old(Table()), i)
      ensures forall t :: t in spine ==> t in old(spine)
    {
      hide Insert, Sorted;
      if timer == null {
        return;
      }
      AdjustIsReinsert(Table(), i);
      if i + 1 < |spine| {
        assert spine[i].next == spine[i + 1];
      }
      var tmp := timer.next;
      if tmp == null || timer.expire < tmp.expire {
        return;
      }
      if timer == head {
        MoveFirst(ver, timer);
      } else {
        MoveInner(timer, i);
      }
    }

    method MoveFirst(ver: Version, timer: UtilTimer)
      requires Ends() && Linked(spine) && |spine| >= 2 && timer == head
      requires Extended(Table(), 0) && Moves(Table(), 0)
      modifies this, spine
      ensures Valid() && Table() == Adjusted(ver, old(Table()), 0)
      ensures forall t :: t in spine ==> t in old(spine)
    {
      hide Insert, RemoveAt, Sorted, Linked, Extended, TableOf;
      ghost var before, s := Table(), spine;
      PlacesDistinct(s);
      MoveFacts(before);
      Behead(ver, timer);
      SameEntries(s);
      if ver == AsWritten {
        TableOfOne(s[1]);
        assert Table() == [before[1]];
      } else {
        TableFrom(s, 1);
      }
      AddTimerFrom(timer, head, 0);
    }

    method MoveInner(timer: UtilTimer, ghost i: nat)
      requires Ends() && Linked(spine) && 0 < i < |spine| - 1 && timer == spine[i]
      requires Extended(Table(), i) && Moves(Table(), i)
      modifies this, spine
      ensures Valid() && Table() == Adjusted(Repaired, old(Table()), i)
      ensures forall t :: t in spine ==> t in old(spine)
    {
      hide Insert, RemoveAt, Sorted, Linked, Extended, TableOf;
      ghost var before, s := Table(), spine;
      PlacesDistinct(s);
      RemovedSorted(before, i);
      Unlink(timer, i);
      SameEntries(s);
      TableOfRest(s, i);
      AddTimerFrom(timer, timer.next, i);
    }

    /** The first timer is taken out; as written, the list is cut behind the second one instead. */
    method Behead(ver: Version, timer: UtilTimer)
      requires Ends() && Linked(spine) && |spine| >= 2 && timer == head
      modifies this`head, this`spine, spine`prev, spine`next
      ensures EndsForAppend() && Linked(spine)
      ensures spine == if ver == AsWritten then [old(spine)[1]] else old(spine)[1..]
    {
      assert spine[0].next == spine[1];
      head := head.next;
      head.prev := null;
      if ver == AsWritten {
        head.next := null;
        spine := [spine[1]];
      } else {
        timer.next := null;
        spine := spine[1..];
      }
    }

    /** A timer with neighbours on both sides is taken out. */
    method Unlink(timer: UtilTimer, ghost i: nat)
      requires Ends() && Linked(spine) && 0 < i < |spine| - 1 && timer == spine[i]
      modifies this`spine, spine`prev, spine`next
      ensures Ends() && Linked(spine) && spine == old(spine)[..i] + old(spine)[i + 1..]
      ensures timer.next == old(spine)[i + 1] == spine[i]
    {
      assert spine[i - 1].next == spine[i] && spine[i].next == spine[i + 1];
      timer.prev.next := timer.next;
      timer.next.prev := timer.prev;
      spine := spine[..i] + spine[i + 1..];
    }

    /** The first timer is taken out. */
    method DropFirst()
      requires Ends() && Linked(spine) && spine != []
      modifies this`head, this`spine, spine`prev
      ensures Ends() && Linked(spine) && spine == old(spine)[1..]
    {
      assert |spine| > 1 ==> spine[0].next == spine[1];
      head := head.next;
      if head != null {
        head.prev := null;
      }
      spine := spine[1..];
    }

    /** The last timer, which is not the first, is taken out. */
    method DropLast()
      requires Ends() && Linked(spine) && |spine| > 1
      modifies this`tail, this`spine, spine`next
      ensures Ends() && Linked(spine) && spine == old(spine)[..|old(spine)| - 1]
    {
      assert spine[|spine| - 1].prev == spine[|spine| - 2];
      tail := tail.prev;
      tail.next := null;
      spine := spine[..|spine| - 1];
    }

    /** del_timer, for the timer at place i. */
    method DelTimer(timer: UtilTimer?, ghost i: nat)
      requires Valid()
      requires timer != null ==> i < |spine| && timer == spine[i]
      modifies this, spine`prev, spine`next
      ensures Valid()
      ensures Table() == if timer == null then old(Table()) else RemoveAt(old(Table()), i)
      ensures forall t :: t in spine ==> t in old(spine)
    {
      hide Sorted, RemoveAt, Linked, TableOf;
      if timer != null {
        ghost var before, s := Table(), spine;
        RemoveKeepsSorted(before, i);
        Detach(timer, i);
        SameEntries(s);
        TableOfRest(s, i);
        assert Table() == RemoveAt(before, i);
      }
    }

    /** The links of del_timer. */
    method Detach(timer: UtilTimer, ghost i: nat)
      requires Ends() && Linked(spine) && i < |spine| && timer == spine[i]
      modifies this, spine`prev, spine`next
      ensures Ends() && Linked(spine) && spine == old(spine)[..i] + old(spine)[i + 1..]
    {
      hide Linked;
      PlacesDistinct(spine);
      if timer == head && timer == tail {
        head, tail, spine := null, null, [];
        NothingLinked();
      } else if timer == head {
        DropFirst();
      } else if timer == tail {
        DropLast();
      } else {
        Unlink(timer, i);
      }
    }

    /** tick at time cur; fired lists the connections for which the callback is called, in order. */
    method Tick(cur: int) returns (fired: seq<int>)
      requires Valid()
      modifies this`head, this`spine, spine`prev
      ensures Valid()
      ensures Table() == Unexpired(old(Table()), cur)
      ensures forall t :: t in spine ==> t in old(spine)
      ensures |fired| == |Expired(old(Table()), cur)|
      ensures forall k :: 0 <= k < |fired| ==> fired[k] == Expired(old(Table()), cur)[k].key.fd
    {
      hide Linked, Sorted, TableOf, Expired, Unexpired;
      fired := [];
      ghost var before, s, k := Table(), spine, 0;
      if head == null {
        ExpiredAre(before, cur, 0);
        return;
      }
      var tmp := head;
      while tmp != null
        invariant 0 <= k <= |s| && spine == s[k..] && tmp == head
        invariant Ends() && Linked(spine)
        invariant forall j :: 0 <= j < |s| ==> s[j].expire == old(s[j].expire)
        invariant |fired| == k
        invariant forall j :: 0 <= j < k ==> fired[j] == s[j].fd
        invariant forall j :: 0 <= j < k ==> before[j].expire <= cur
        decreases |s| - k
      {
        RestFrom(s, k);
        assert tmp == s[k] && before[k].expire == s[k].expire;
        if cur < tmp.expire {
          break;
        }
        fired := fired + [tmp.fd];
        DropFirst();
        k := k + 1;
        tmp := head;
      }
      SameEntries(s);
      TableFrom(s, k);
      ExpiredAre(before, cur, k);
    }
  }

  lemma RestFrom<T>(s: seq<T>, k: nat)
    requires k < |s|
    ensures s[k..][0] == s[k] && s[k..][1..] == s[k + 1..]
  {
  }

  lemma TableFrom(spine: seq<UtilTimer>, k: nat)
    requires k <= |spine|
    ensures TableOf(spine[k..]) == TableOf(spine)[k..]
  {
  }

  lemma ExpiredAre<K>(t: seq<Entry<K>>, now: int, k: nat)
    requires Sorted(t) && k <= |t| && (forall i :: 0 <= i < k ==> t[i].expire <= now)
    requires k < |t| ==> now < t[k].expire
    ensures Expired(t, now) == t[..k] && Unexpired(t, now) == t[k..] && Sorted(t[k..])
  {
    RankIs(t, now, k);
    TailSorted(t, k);
  }

  lemma TailSorted<K>(t: seq<Entry<K>>, k: nat)
    requires Sorted(t) && k <= |t|
    ensures Sorted(t[k..])
  {
  }

  lemma RemoveKeepsSorted<K>(t: seq<Entry<K>>, i: nat)
    requires Sorted(t) && i < |t|
    ensures Sorted(RemoveAt(t, i))
    ensures RemoveAt(t, i) == t[..i] + t[i + 1..]
    ensures i == 0 ==> RemoveAt(t, i) == t[1..]
    ensures i == |t| - 1 ==> RemoveAt(t, i) == t[..i]
    ensures |t| == 1 ==> RemoveAt(t, i) == []
  {
    var u := RemoveAt(t, i);
    assert forall j :: 0 <= j < |u| ==> u[j] == if j < i then t[j] else t[j + 1];
  }

  lemma PlacesDistinct(spine: seq<UtilTimer>)
    requires Linked(spine)
    ensures forall i, j :: 0 <= i < |spine| && 0 <= j < |spine| && i != j ==> spine[i] != spine[j]
  {
  }

  lemma InsertAt<K>(t: seq<Entry<K>>, x: Entry<K>, j: nat)
    requires j <= |t|
    requires forall i :: 0 <= i < j ==> t[i].expire <= x.expire
    requires j < |t| ==> x.expire < t[j].expire
    ensures Insert(t, x) == t[..j] + [x] + t[j..]
    ensures j == 0 ==> Insert(t, x) == [x] + t
  {
    RankIs(t, x.expire, j);
  }

  lemma MoveFacts<K>(t: seq<Entry<K>>)
    requires Extended(t, 0) && Moves(t, 0)
    ensures RemoveAt(t, 0) == t[1..] && Sorted(t[1..])
    ensures Sorted([t[1]]) && Insert([t[1]], t[0]) == [t[1], t[0]]
  {
    hide Insert;
    RemovedSorted(t, 0);
    InsertBehind(t[1], t[0]);
  }

  lemma SingleLinked(timer: UtilTimer)
    requires timer.prev == null && timer.next == null
    ensures Linked([timer])
  {
  }

  lemma NothingLinked()
    ensures Linked([])
  {
  }
}
