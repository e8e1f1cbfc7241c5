/**
The timing wheel as a value: sixty slots of timers with the rounds each still has to wait, and the countdown
table that it implements.
*/
module WheelTable {

  const N: nat := 60

  datatype Item<K> = Item(key: K, rotation: nat)

  datatype Wheel<K> = Wheel(slots: seq<seq<Item<K>>>, cur: nat)

  ghost predicate Shape<K>(w: Wheel<K>) {
    |w.slots| == N && w.cur < N
  }

  /** The place of an item: its slot, and its index there. */
  ghost predicate IsAt<K>(w: Wheel<K>, k: K, s: int, i: int)
    requires Shape(w)
  {
    0 <= s < N && 0 <= i < |w.slots[s]| && w.slots[s][i].key == k
  }

  /** No timer is in two places. */
  ghost predicate DistinctItems<K(!new)>(w: Wheel<K>)
    requires Shape(w)
  {
    forall k, s, i, s', i' :: IsAt(w, k, s, i) && IsAt(w, k, s', i') ==> s == s' && i == i'
  }

  /** How many ticks come before the one in which a timer fires. */
  function Remaining(rotation: nat, slot: nat, cur: nat): nat {
    rotation * N + (slot - cur) % N
  }

  /** The countdown table: a timer with key k is in the wheel, and n ticks come before its own. */
  ghost predicate Waits<K>(w: Wheel<K>, k: K, n: int)
    requires Shape(w)
  {
    exists s, i :: IsAt(w, k, s, i) && Remaining(w.slots[s][i].rotation, s, w.cur) == n
  }

  // ---------- The operations ----------

  /** The number of whole slots in a timeout, with SI == 1. */
  function TicksOf(timeout: nat): nat {
    if timeout < 1 then 0 else timeout
  }

  function SlotFor(cur: nat, ticks: nat): (s: nat)
    ensures s < N
  {
    (cur + ticks % N) % N
  }

  function Added<K>(w: Wheel<K>, key: K, timeout: nat): Wheel<K>
    requires Shape(w)
  {
    var ticks := TicksOf(timeout);
    var ts := SlotFor(w.cur, ticks);
    w.(slots := w.slots[ts := [Item(key, ticks / N)] + w.slots[ts]])
  }

  function Deleted<K>(w: Wheel<K>, s: nat, i: nat): Wheel<K>
    requires Shape(w) && s < N && i < |w.slots[s]|
  {
    w.(slots := w.slots[s := w.slots[s][..i] + w.slots[s][i + 1..]])
  }

  /** The timers of a slot that have more rounds to wait, with one round less. */
  function Survivors<K>(slot: seq<Item<K>>): seq<Item<K>> {
    if slot == [] then []
    else if slot[0].rotation > 0 then [slot[0].(rotation := slot[0].rotation - 1)] + Survivors(slot[1..])
    else Survivors(slot[1..])
  }

  function Due<K>(slot: seq<Item<K>>): seq<K> {
    if slot == [] then []
    else if slot[0].rotation > 0 then Due(slot[1..])
    else [slot[0].key] + Due(slot[1..])
  }

  /** The timers of a slot fire in the order in which they stand there, and those that stay keep that order. */
  lemma {:induction false} SlotOrder<K>(a: seq<Item<K>>, b: seq<Item<K>>)
    ensures Due(a + b) == Due(a) + Due(b) && Survivors(a + b) == Survivors(a) + Survivors(b)
  {
    if a == [] {
      assert a + b == b;
    } else {
      assert (a + b)[1..] == a[1..] + b;
      SlotOrder(a[1..], b);
    }
  }

  function Ticked<K>(w: Wheel<K>): Wheel<K>
    requires Shape(w)
  {
    Wheel(w.slots[w.cur := Survivors(w.slots[w.cur])], (w.cur + 1) % N)
  }

  // ---------- The wheel implements the countdown table ----------

  lemma RemainingStep(rotation: nat, slot: nat, cur: nat)
    requires slot < N && cur < N
    ensures slot != cur ==> Remaining(rotation, slot, cur) == Remaining(rotation, slot, (cur + 1) % N) + 1
    ensures slot == cur && rotation > 0 ==>
              Remaining(rotation, slot, cur) == Remaining(rotation - 1, slot, (cur + 1) % N) + 1
    ensures slot == cur ==> (Remaining(rotation, slot, cur) == 0 <==> rotation == 0)
  {
  }

  lemma RemainingOfNew(cur: nat, ticks: nat)
    requires cur < N
    ensures Remaining(ticks / N, SlotFor(cur, ticks), cur) == ticks
  {
  }

  /** After add_timer the new timer waits for as many ticks as the timeout says, and the others as before. */
  lemma AddedWaits<K(!new)>(w: Wheel<K>, key: K, timeout: nat)
    requires Shape(w)
    ensures forall k, n :: Waits(Added(w, key, timeout), k, n) <==> Waits(w, k, n) || (k == key && n == timeout)
    ensures DistinctItems(w) && (forall s, i :: !IsAt(w, key, s, i)) ==> DistinctItems(Added(w, key, timeout))
  {
    var ticks := TicksOf(timeout);
    var ts := SlotFor(w.cur, ticks);
    var w' := Added(w, key, timeout);
    RemainingOfNew(w.cur, ticks);
    assert IsAt(w', key, ts, 0) && w'.slots[ts][0] == Item(key, ticks / N);
    forall k, s, i | IsAt(w, k, s, i)
      ensures IsAt(w', k, s, if s == ts then i + 1 else i)
      ensures w'.slots[s][if s == ts then i + 1 else i] == w.slots[s][i]
    {
    }
    forall k, s, i | IsAt(w', k, s, i) && !(s == ts && i == 0)
      ensures IsAt(w, k, s, if s == ts then i - 1 else i)
      ensures w.slots[s][if s == ts then i - 1 else i] == w'.slots[s][i]
    {
    }
  }

  /** After del_timer the timer is gone, and the others wait as before. */
  lemma DeletedWaits<K(!new)>(w: Wheel<K>, ds: nat, di: nat)
    requires Shape(w) && ds < N && di < |w.slots[ds]| && DistinctItems(w)
    ensures forall k, n :: Waits(Deleted(w, ds, di), k, n) <==> Waits(w, k, n) && k != w.slots[ds][di].key
    ensures DistinctItems(Deleted(w, ds, di))
  {
    var w', key := Deleted(w, ds, di), w.slots[ds][di].key;
    assert IsAt(w, key, ds, di);
    forall k, s, i | IsAt(w, k, s, i) && !(s == ds && i == di)
      ensures IsAt(w', k, s, if s == ds && i > di then i - 1 else i)
      ensures w'.slots[s][if s == ds && i > di then i - 1 else i] == w.slots[s][i]
    {
    }
    forall k, s, i | IsAt(w', k, s, i)
      ensures IsAt(w, k, s, if s == ds && i >= di then i + 1 else i)
      ensures w.slots[s][if s == ds && i >= di then i + 1 else i] == w'.slots[s][i]
    {
    }
  }

  lemma {:induction false} SlotSplits<K(!new)>(slot: seq<Item<K>>, k: K, r: nat)
    ensures Item(k, r) in Survivors(slot) <==> Item(k, r + 1) in slot
    ensures k in Due(slot) <==> Item(k, 0) in slot
    decreases |slot|
  {
    if slot != [] {
      SlotSplits(slot[1..], k, r);
      assert slot == [slot[0]] + slot[1..];
    }
  }

  lemma WaitsIn<K>(w: Wheel<K>, k: K, n: int)
    requires Shape(w)
    ensures Waits(w, k, n) <==>
            exists s, r: nat :: 0 <= s < N && Item(k, r) in w.slots[s] && Remaining(r, s, w.cur) == n
  {
    if Waits(w, k, n) {
      var s, i :| IsAt(w, k, s, i) && Remaining(w.slots[s][i].rotation, s, w.cur) == n;
      assert w.slots[s][i] == Item(k, w.slots[s][i].rotation);
    }
    if exists s, r: nat :: 0 <= s < N && Item(k, r) in w.slots[s] && Remaining(r, s, w.cur) == n {
      var s, r: nat :| 0 <= s < N && Item(k, r) in w.slots[s] && Remaining(r, s, w.cur) == n;
      var i :| 0 <= i < |w.slots[s]| && w.slots[s][i] == Item(k, r);
      assert IsAt(w, k, s, i);
    }
  }

  /** A tick fires exactly the timers that wait for no tick, and every other waits for one tick less. */
  lemma TickedWaits<K(!new)>(w: Wheel<K>, k: K)
    requires Shape(w)
    ensures forall n: nat :: Waits(Ticked(w), k, n) <==> Waits(w, k, n + 1)
    ensures k in Due(w.slots[w.cur]) <==> Waits(w, k, 0)
  {
    hide Survivors, Due, Waits, Remaining;
    var w' := Ticked(w);
    forall n: nat
      ensures Waits(w', k, n) <==> Waits(w, k, n + 1)
    {
      WaitsIn(w', k, n);
      WaitsIn(w, k, n + 1);
      if Waits(w', k, n) {
        var s, r: nat :| 0 <= s < N && Item(k, r) in w'.slots[s] && Remaining(r, s, w'.cur) == n;
        TickedItem(w, k, s, r);
      }
      if Waits(w, k, n + 1) {
        var s, r: nat :| 0 <= s < N && Item(k, r) in w.slots[s] && Remaining(r, s, w.cur) == n + 1;
        RemainingStep(r, s, w.cur);
        if s == w.cur {
          SlotSplits(w.slots[s], k, r - 1);
          assert Item(k, r - 1) in w'.slots[s];
        } else {
          assert Item(k, r) in w'.slots[s];
        }
      }
    }
    WaitsIn(w, k, 0);
    SlotSplits(w.slots[w.cur], k, 0);
    if Waits(w, k, 0) {
      var s, r: nat :| 0 <= s < N && Item(k, r) in w.slots[s] && Remaining(r, s, w.cur) == 0;
      RemainingStep(r, s, w.cur);
    }
    RemainingStep(0, w.cur, w.cur);
  }

  lemma TickedItem<K(!new)>(w: Wheel<K>, k: K, s: nat, r: nat)
    requires Shape(w) && s < N && Item(k, r) in Ticked(w).slots[s]
    ensures exists r': nat :: Item(k, r') in w.slots[s] &&
                              Remaining(r', s, w.cur) == Remaining(r, s, Ticked(w).cur) + 1
  {
    if s == w.cur {
      SlotSplits(w.slots[s], k, r);
      RemainingStep(r + 1, s, w.cur);
      assert Item(k, r + 1) in w.slots[s];
    } else {
      RemainingStep(r, s, w.cur);
      assert Item(k, r) in w.slots[s];
    }
  }

  ghost predicate NoKeyTwice<K>(slot: seq<Item<K>>) {
    forall i, j :: 0 <= i < j < |slot| ==> slot[i].key != slot[j].key
  }

  ghost predicate HasKey<K>(slot: seq<Item<K>>, k: K) {
    exists i :: 0 <= i < |slot| && slot[i].key == k
  }

  lemma HasKeySplit<K>(slot: seq<Item<K>>, k: K)
    requires slot != []
    ensures HasKey(slot, k) <==> slot[0].key == k || HasKey(slot[1..], k)
  {
    if HasKey(slot, k) && slot[0].key != k {
      var i :| 0 <= i < |slot| && slot[i].key == k;
      assert slot[1..][i - 1].key == k;
    }
    if HasKey(slot[1..], k) {
      var i :| 0 <= i < |slot[1..]| && slot[1..][i].key == k;
      assert slot[i + 1].key == k;
    }
  }

  lemma {:induction false} SurvivorsKeep<K(!new)>(slot: seq<Item<K>>, k: K)
    ensures HasKey(Survivors(slot), k) ==> HasKey(slot, k)
    ensures k in Due(slot) ==> HasKey(slot, k)
    ensures HasKey(slot, k) ==> HasKey(Survivors(slot), k) || k in Due(slot)
    decreases |slot|
  {
    if slot != [] {
      SurvivorsKeep(slot[1..], k);
      HasKeySplit(slot, k);
      if slot[0].rotation > 0 {
        HasKeySplit(Survivors(slot), k);
        assert Survivors(slot)[1..] == Survivors(slot[1..]);
      }
    }
  }

  lemma {:induction false} SurvivorsDistinct<K(!new)>(slot: seq<Item<K>>)
    requires NoKeyTwice(slot)
    ensures NoKeyTwice(Survivors(slot))
    ensures forall k :: multiset(Due(slot))[k] <= 1
    decreases |slot|
  {
    if slot != [] {
      SurvivorsDistinct(slot[1..]);
      forall k
        ensures slot[0].key == k ==> !HasKey(slot[1..], k)
      {
        if HasKey(slot[1..], k) {
          var i :| 0 <= i < |slot[1..]| && slot[1..][i].key == k;
          assert slot[i + 1].key == k;
        }
      }
      var k := slot[0].key;
      SurvivorsKeep(slot[1..], k);
      var rest := Survivors(slot[1..]);
      assert forall i :: 0 <= i < |rest| ==> rest[i].key != k by {
        if i :| 0 <= i < |rest| && rest[i].key == k {
          assert HasKey(rest, k);
        }
      }
    }
  }

  lemma TickedDistinct<K(!new)>(w: Wheel<K>)
    requires Shape(w) && DistinctItems(w)
    ensures DistinctItems(Ticked(w))
    ensures forall k :: multiset(Due(w.slots[w.cur]))[k] <= 1
  {
    var slot, w' := w.slots[w.cur], Ticked(w);
    forall i, j | 0 <= i < j < |slot|
      ensures slot[i].key != slot[j].key
    {
      assert IsAt(w, slot[i].key, w.cur, i) && IsAt(w, slot[j].key, w.cur, j);
    }
    SurvivorsDistinct(slot);
    forall k, s, i, s', i' | IsAt(w', k, s, i) && IsAt(w', k, s', i')
      ensures s == s' && i == i'
    {
      FormerPlace(w, k, s, i);
      FormerPlace(w, k, s', i');
      if s == s' && s != w.cur {
        assert IsAt(w, k, s, i) && IsAt(w, k, s', i');
      }
    }
  }

  lemma FormerPlace<K(!new)>(w: Wheel<K>, k: K, s: int, i: int)
    requires Shape(w) && IsAt(Ticked(w), k, s, i)
    ensures exists j :: IsAt(w, k, s, j)
  {
    if s == w.cur {
      assert HasKey(Survivors(w.slots[s]), k);
      SurvivorsKeep(w.slots[s], k);
      var j :| 0 <= j < |w.slots[s]| && w.slots[s][j].key == k;
      assert IsAt(w, k, s, j);
    } else {
      assert IsAt(w, k, s, i);
    }
  }

  // ---------- Whole runs ----------

  datatype Event<K> = Add(key: K, timeout: int) | Delete(key: K) | Tick

  ghost predicate Present<K>(w: Wheel<K>, k: K)
    requires Shape(w)
  {
    exists s, i :: IsAt(w, k, s, i)
  }

  /** A timer that is added is a new one, and one that is deleted is in the wheel. */
  ghost predicate Enabled<K>(w: Wheel<K>, e: Event<K>)
    requires Shape(w)
  {
    match e
    case Add(key, _) => !Present(w, key)
    case Delete(key) => Present(w, key)
    case Tick => true
  }

  ghost function Step<K>(w: Wheel<K>, e: Event<K>): (w': Wheel<K>)
    requires Shape(w) && Enabled(w, e)
    ensures Shape(w')
  {
    match e
    case Add(key, timeout) => if timeout < 0 then w else Added(w, key, timeout)
    case Delete(key) => var s, i :| IsAt(w, key, s, i); Deleted(w, s, i)
    case Tick => Ticked(w)
  }

  ghost predicate Legal<K>(w: Wheel<K>, events: seq<Event<K>>)
    requires Shape(w)
    decreases |events|
  {
    events != [] ==> Enabled(w, events[0]) && Legal(Step(w, events[0]), events[1..])
  }

  /** What the ticks of a run fire, tick by tick. */
  ghost function Fired<K>(w: Wheel<K>, events: seq<Event<K>>): seq<seq<K>>
    requires Shape(w) && Legal(w, events)
    decreases |events|
  {
    if events == [] then []
    else
      (if events[0].Tick? then [Due(w.slots[w.cur])] else []) + Fired(Step(w, events[0]), events[1..])
  }

  lemma StepDistinct<K(!new)>(w: Wheel<K>, e: Event<K>)
    requires Shape(w) && Enabled(w, e) && DistinctItems(w)
    ensures DistinctItems(Step(w, e))
  {
    match e
    case Add(key, timeout) =>
      if timeout >= 0 {
        AddedWaits(w, key, timeout);
      }
    case Delete(key) =>
      var s, i :| IsAt(w, key, s, i) && Step(w, e) == Deleted(w, s, i);
      DeletedWaits(w, s, i);
    case Tick => TickedDistinct(w);
  }

  /** What a step does to a timer that is not added or deleted by it. */
  lemma StepWaits<K(!new)>(w: Wheel<K>, e: Event<K>, k: K)
    requires Shape(w) && Enabled(w, e) && DistinctItems(w)
    requires e.Tick? || e.key != k
    ensures forall n: nat :: Waits(w, k, if e.Tick? then n + 1 else n) <==> Waits(Step(w, e), k, n)
  {
    match e
    case Add(key, timeout) =>
      if timeout >= 0 {
        AddedWaits(w, key, timeout);
      }
    case Delete(key) =>
      var s, i :| IsAt(w, key, s, i) && Step(w, e) == Deleted(w, s, i);
      DeletedWaits(w, s, i);
    case Tick => TickedWaits(w, k);
  }

  lemma WaitsOnce<K(!new)>(w: Wheel<K>, k: K, n: int, n': int)
    requires Shape(w) && DistinctItems(w) && Waits(w, k, n) && Waits(w, k, n')
    ensures n == n'
  {
  }

  /** A timer that nothing waits for does not fire. */
  lemma {:induction false} NeverFires<K(!new)>(w: Wheel<K>, events: seq<Event<K>>, k: K)
    requires Shape(w) && DistinctItems(w) && Legal(w, events)
    requires forall n: nat :: !Waits(w, k, n)
    requires forall e :: e in events ==> e.Tick? || e.key != k
    ensures forall j :: 0 <= j < |Fired(w, events)| ==> k !in Fired(w, events)[j]
    decreases |events|
  {
    hide Ticked, Added, Deleted, IsAt, Due;
    if events != [] {
      var e, w' := events[0], Step(w, events[0]);
      StepDistinct(w, e);
      StepWaits(w, e, k);
      TickedWaits(w, k);
      forall n: nat
        ensures !Waits(w', k, n)
      {
        assert !Waits(w, k, if e.Tick? then n + 1 else n);
      }
      NeverFires(w', events[1..], k);
      assert !Waits(w, k, 0);
    }
  }

  /** A timer that waits for n ticks and is not deleted fires in the next tick after those, once, and in no other. */
  lemma {:induction false} FiresOnTime<K(!new)>(w: Wheel<K>, events: seq<Event<K>>, k: K, n: nat)
    requires Shape(w) && DistinctItems(w) && Legal(w, events) && Waits(w, k, n)
    requires forall e :: e in events ==> e.Tick? || e.key != k
    ensures forall j :: 0 <= j < |Fired(w, events)| ==> multiset(Fired(w, events)[j])[k] == if j == n then 1 else 0
    decreases |events|
  {
    hide Ticked, Added, Deleted, IsAt, Due, DistinctItems;
    if events != [] {
      var e, w' := events[0], Step(w, events[0]);
      StepDistinct(w, e);
      StepWaits(w, e, k);
      if e.Tick? {
        TickedWaits(w, k);
        TickedDistinct(w);
        if n == 0 {
          forall m: nat
            ensures !Waits(w', k, m)
          {
            if Waits(w', k, m) {
              WaitsOnce(w, k, m + 1, 0);
            }
          }
          NeverFires(w', events[1..], k);
        } else {
          if Waits(w, k, 0) {
            WaitsOnce(w, k, n, 0);
          }
          assert Waits(w', k, n - 1);
          FiresOnTime(w', events[1..], k, n - 1);
        }
      } else {
        FiresOnTime(w', events[1..], k, n);
      }
    }
  }

  /**
  A timer added with timeout t fires exactly once, in the (t+1)-th later tick, in every run in which it is not
  deleted, whatever else is added and deleted.
  */
  lemma AddedFiresOnTime<K(!new)>(w: Wheel<K>, k: K, t: nat, events: seq<Event<K>>)
    requires Shape(w) && DistinctItems(w) && !Present(w, k) && Legal(w, [Add(k, t)] + events)
    requires forall e :: e in events ==> e.Tick? || e.key != k
    ensures forall j :: 0 <= j < |Fired(w, [Add(k, t)] + events)| ==>
              multiset(Fired(w, [Add(k, t)] + events)[j])[k] == if j == t then 1 else 0
  {
    hide Ticked, Added, Deleted, IsAt, Due, DistinctItems;
    assert ([Add(k, t)] + events)[1..] == events;
    StepDistinct(w, Add(k, t));
    AddedWaits(w, k, t);
    FiresOnTime(Added(w, k, t), events, k, t);
  }

  /** A deleted timer does not fire. */
  lemma DeletedNeverFires<K(!new)>(w: Wheel<K>, k: K, events: seq<Event<K>>)
    requires Shape(w) && DistinctItems(w) && Present(w, k) && Legal(w, [Delete(k)] + events)
    requires forall e :: e in events ==> e.Tick? || e.key != k
    ensures forall j :: 0 <= j < |Fired(w, [Delete(k)] + events)| ==> k !in Fired(w, [Delete(k)] + events)[j]
  {
    hide Ticked, Added, Deleted, Due;
    assert ([Delete(k)] + events)[1..] == events;
    StepDistinct(w, Delete(k));
    var s, i :| IsAt(w, k, s, i) && Step(w, Delete(k)) == Deleted(w, s, i);
    DeletedWaits(w, s, i);
    NeverFires(Deleted(w, s, i), events, k);
  }

  /** A due timer, other than the last of the slot, behind one that has more rounds to wait. */
  ghost predicate SpoilsLinks<K>(slot: seq<Item<K>>) {
    exists i, k :: 0 <= i < k && k + 1 < |slot| && slot[i].rotation > 0 && slot[k].rotation == 0
  }

  function Rotations<K>(slot: seq<Item<K>>): (r: seq<nat>)
    ensures |r| == |slot| && forall i :: 0 <= i < |slot| ==> r[i] == slot[i].rotation
  {
    seq(|slot|, i requires 0 <= i < |slot| => slot[i].rotation)
  }
}
