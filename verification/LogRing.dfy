/**
The ring buffer of the log queue. front and back are the places of the item popped last and of the item pushed
last; both start at -1.
*/
module LogRing {
  datatype Ring<T> = Ring(slots: seq<T>, size: nat, front: int, back: int)

  ghost predicate Valid<T>(r: Ring<T>) {
    && r.size <= |r.slots| && |r.slots| > 0
    && -1 <= r.front < |r.slots| && -1 <= r.back < |r.slots|
    && (r.back == -1 <==> r.front == -1 && r.size == 0)
    && (r.back != -1 ==> r.back == (r.front + r.size) % |r.slots|)
  }

  /** The items, from the one that was pushed first. */
  function Contents<T>(r: Ring<T>): (c: seq<T>)
    requires |r.slots| > 0
    ensures |c| == r.size
  {
    seq(r.size, k requires 0 <= k < r.size => r.slots[(r.front + 1 + k) % |r.slots|])
  }

  function Emptied<T>(r: Ring<T>): Ring<T> {
    r.(size := 0, front := -1, back := -1)
  }

  function Pushed<T>(r: Ring<T>, item: T): Ring<T>
    requires |r.slots| > 0
  {
    if r.size >= |r.slots| then r
    else
      var back := (r.back + 1) % |r.slots|;
      r.(slots := r.slots[back := item], size := r.size + 1, back := back)
  }

  /** The item that is popped from a ring that is not empty. */
  function First<T>(r: Ring<T>): T
    requires |r.slots| > 0
  {
    r.slots[(r.front + 1) % |r.slots|]
  }

  function Popped<T>(r: Ring<T>): Ring<T>
    requires |r.slots| > 0 && r.size > 0
  {
    r.(size := r.size - 1, front := (r.front + 1) % |r.slots|)
  }

  lemma Wraps(x: int, m: int)
    requires 0 <= x < 2 * m
    ensures x % m == if x < m then x else x - m
  {
    assert x >= m ==> (x - m) % m == x - m;
  }

  lemma ItemAt<T>(r: Ring<T>, k: nat)
    requires Valid(r) && k < r.size
    ensures var i := r.front + 1 + k;
            Contents(r)[k] == r.slots[if i < |r.slots| then i else i - |r.slots|]
  {
    Wraps(r.front + 1 + k, |r.slots|);
  }

  lemma EmptiedIsEmpty<T>(r: Ring<T>)
    requires |r.slots| > 0
    ensures Valid(Emptied(r)) && Contents(Emptied(r)) == []
  {
  }

  /** Unless the ring is full, the item becomes the last one. */
  lemma PushAppends<T>(r: Ring<T>, item: T)
    requires Valid(r)
    ensures Valid(Pushed(r, item)) && |Pushed(r, item).slots| == |r.slots|
    ensures Contents(Pushed(r, item)) == if r.size >= |r.slots| then Contents(r) else Contents(r) + [item]
  {
    if r.size < |r.slots| {
      var u, m := Pushed(r, item), |r.slots|;
      PushedBack(r, item);
      forall k | 0 <= k < u.size
        ensures Contents(u)[k] == (Contents(r) + [item])[k]
      {
        ItemAt(u, k);
        if k < r.size {
          ItemAt(r, k);
        }
      }
    }
  }

  lemma PushedBack<T>(r: Ring<T>, item: T)
    requires Valid(r) && r.size < |r.slots|
    ensures Valid(Pushed(r, item))
    ensures var i := r.front + 1 + r.size;
            Pushed(r, item).back == if i < |r.slots| then i else i - |r.slots|
  {
    var m := |r.slots|;
    Wraps(r.back + 1, m);
    Wraps(r.front + r.size + 1, m);
    if r.back != -1 {
      Wraps(r.front + r.size, m);
    }
  }

  /** Popping takes the item that was pushed first. */
  lemma PopTakesFirst<T>(r: Ring<T>)
    requires Valid(r) && r.size > 0
    ensures Valid(Popped(r)) && Contents(r) == [First(r)] + Contents(Popped(r))
  {
    var u, m := Popped(r), |r.slots|;
    Wraps(r.front + 1, m);
    Wraps(r.front + r.size, m);
    Wraps(u.front + u.size, m);
    forall k | 0 <= k < r.size
      ensures Contents(r)[k] == ([First(r)] + Contents(u))[k]
    {
      ItemAt(r, k);
      if k > 0 {
        ItemAt(u, k - 1);
      }
    }
  }

  /** What back() reads is the item that was pushed last. */
  lemma BackIsLast<T>(r: Ring<T>)
    requires Valid(r) && r.size > 0
    ensures 0 <= r.back && r.slots[r.back] == Contents(r)[r.size - 1]
  {
    ItemAt(r, r.size - 1);
    Wraps(r.front + r.size, |r.slots|);
  }
}
