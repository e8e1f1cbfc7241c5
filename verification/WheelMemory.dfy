/**
The traversal of one slot by tick, on the pointers alone. A timer is named by its place in the list before
the tick, so that pointers are numbers, and NIL stands for the null pointer.
*/
module WheelMemory {
  import opened SourceVersion

  const NIL := -1

  datatype Memory = Memory(next: seq<int>, prev: seq<int>, rotation: seq<nat>, head: int)

  ghost predicate Shaped(m: Memory, n: nat) {
    |m.next| == n && |m.prev| == n && |m.rotation| == n && NIL <= m.head < n
  }

  /** The timers from t on have not been visited: next is as before, and prev is null only at the head. */
  ghost predicate Unvisited(m: Memory, n: nat, t: nat) {
    && Shaped(m, n) && t <= n
    && forall i :: t <= i < n ==>
         && m.next[i] == (if i + 1 < n then i + 1 else NIL)
         && (if i == m.head then NIL else 0) <= m.prev[i] <= i
  }

  /** One round of the loop of tick. */
  function Visit(ver: Version, m: Memory, n: nat, t: nat): (r: Memory)
    requires Unvisited(m, n, t) && t < n
    ensures Unvisited(r, n, t + 1)
  {
    var succ := m.next[t];
    if m.rotation[t] > 0 then m.(rotation := m.rotation[t := m.rotation[t] - 1])
    else if t == m.head then
      var m1 := m.(head := succ);
      if succ == NIL then m1 else m1.(prev := m.prev[succ := NIL])
    else
      var m1 := m.(next := m.next[m.prev[t] := succ]);
      if succ == NIL then m1
      else m1.(prev := m.prev[succ := if ver == AsWritten then succ else m.prev[t]])
  }

  function Walk(ver: Version, m: Memory, n: nat, t: nat): (r: Memory)
    requires Unvisited(m, n, t)
    ensures Shaped(r, n)
    decreases n - t
  {
    if t == n then m else Walk(ver, Visit(ver, m, n, t), n, t + 1)
  }

  // ---------- Lists ----------

  /** The list l is linked both ways from head on. */
  ghost predicate IsList(m: Memory, n: nat, l: seq<int>) {
    && Shaped(m, n)
    && (forall i :: 0 <= i < |l| ==> 0 <= l[i] < n)
    && (forall i, j :: 0 <= i < |l| && 0 <= j < |l| && j == i + 1 ==> m.next[l[i]] == l[j] && m.prev[l[j]] == l[i])
    && (if l == [] then m.head == NIL
        else m.head == l[0] && m.prev[l[0]] == NIL && m.next[l[|l| - 1]] == NIL)
  }

  ghost predicate Increasing(l: seq<int>) {
    forall i, j :: 0 <= i < j < |l| ==> l[i] < l[j]
  }

  function Range(t: int, n: int): (r: seq<int>)
    ensures |r| == if t < n then n - t else 0
    ensures forall i :: 0 <= i < |r| ==> r[i] == t + i
  {
    if t < n then seq(n - t, i => t + i) else []
  }

  /** The first t timers have been visited, and kept are those that are still in the list. */
  ghost predicate Sound(m: Memory, n: nat, t: nat, kept: seq<int>) {
    && Unvisited(m, n, t) && IsList(m, n, kept + Range(t, n)) && Increasing(kept)
    && forall i :: 0 <= i < |kept| ==> 0 <= kept[i] < t
  }

  lemma RangeFront(t: nat, n: nat)
    requires t < n
    ensures Range(t, n) == [t] + Range(t + 1, n)
  {
  }

  /** The list in front of a visit: what is kept, the timer t, and the rest. */
  lemma ListAt(n: nat, t: nat, kept: seq<int>)
    requires t < n
    ensures var l := kept + Range(t, n);
            && |l| == |kept| + n - t && l[|kept|] == t
            && (forall i :: 0 <= i < |kept| ==> l[i] == kept[i])
            && (forall i :: |kept| <= i < |l| ==> l[i] == t + i - |kept|)
    ensures (kept + [t]) + Range(t + 1, n) == kept + Range(t, n)
    ensures var l, l' := kept + Range(t, n), kept + Range(t + 1, n);
            && |l'| == |l| - 1
            && (forall i :: 0 <= i < |kept| ==> l'[i] == kept[i])
            && (forall i :: |kept| <= i < |l'| ==> l'[i] == t + 1 + i - |kept|)
  {
    RangeFront(t, n);
  }

  lemma SoundKeep(m: Memory, n: nat, t: nat, kept: seq<int>)
    requires Sound(m, n, t, kept) && t < n && m.rotation[t] > 0
    ensures Sound(Visit(Repaired, m, n, t), n, t + 1, kept + [t])
  {
    ListAt(n, t, kept);
  }

  lemma SoundDropHead(m: Memory, n: nat, t: nat)
    requires Sound(m, n, t, []) && t < n && m.rotation[t] == 0
    ensures Sound(Visit(Repaired, m, n, t), n, t + 1, [])
  {
    hide Range, IsList, Increasing;
    EmptyFront(Range(t, n));
    EmptyFront(Range(t + 1, n));
    TailLinks(m, n, t);
    HeadDropped(m, n, t);
  }

  lemma HeadDropped(m: Memory, n: nat, t: nat)
    requires Unvisited(m, n, t) && t < n && m.head == t && m.rotation[t] == 0
    requires forall i :: t < i < n ==> m.prev[i] == i - 1
    ensures IsList(Visit(Repaired, m, n, t), n, Range(t + 1, n))
  {
    hide Range, IsList;
    TailIsList(Visit(Repaired, m, n, t), n, t + 1);
  }

  lemma TailLinks(m: Memory, n: nat, t: nat)
    requires Shaped(m, n) && t < n && IsList(m, n, Range(t, n))
    ensures m.head == t && forall i :: t < i < n ==> m.prev[i] == i - 1
  {
    var l := Range(t, n);
    assert l[0] == t;
    forall i | t < i < n
      ensures m.prev[i] == i - 1
    {
      assert l[i - t] == i && l[i - 1 - t] == i - 1;
    }
  }

  lemma TailIsList(m: Memory, n: nat, t: nat)
    requires Shaped(m, n) && t <= n
    requires m.head == (if t < n then t else NIL) && (t < n ==> m.prev[t] == NIL)
    requires forall i :: t <= i < n ==> m.next[i] == if i + 1 < n then i + 1 else NIL
    requires forall i :: t < i < n ==> m.prev[i] == i - 1
    ensures IsList(m, n, Range(t, n))
  {
  }

  lemma SoundDropInner(m: Memory, n: nat, t: nat, kept: seq<int>)
    requires Sound(m, n, t, kept) && t < n && m.rotation[t] == 0 && kept != []
    ensures Sound(Visit(Repaired, m, n, t), n, t + 1, kept)
  {
    ListAt(n, t, kept);
    var l, l' := kept + Range(t, n), kept + Range(t + 1, n);
    var k, r := |kept|, Visit(Repaired, m, n, t);
    assert m.head == l[0] == kept[0];
    assert m.prev[t] == l[k - 1] && m.next[t] == if t + 1 < n then l'[k] else NIL;
    forall i, j | 0 <= i < |l'| && 0 <= j < |l'| && j == i + 1
      ensures r.next[l'[i]] == l'[j] && r.prev[l'[j]] == l'[i]
    {
      if j < k {
        assert l[i] == l'[i] && l[j] == l'[j];
      } else if i >= k {
        assert l[i + 1] == l'[i] && l[j + 1] == l'[j];
      }
    }
    assert l'[|l'| - 1] == if t + 1 < n then n - 1 else l[k - 1];
  }

  lemma SoundVisit(m: Memory, n: nat, t: nat, kept: seq<int>)
    requires Sound(m, n, t, kept) && t < n
    ensures Sound(Visit(Repaired, m, n, t), n, t + 1, if m.rotation[t] > 0 then kept + [t] else kept)
  {
    hide IsList;
    if m.rotation[t] > 0 {
      SoundKeep(m, n, t, kept);
    } else if kept == [] {
      SoundDropHead(m, n, t);
    } else {
      SoundDropInner(m, n, t, kept);
    }
  }

  // ---------- The repaired traversal ----------

  /** The timers from t on that have more rounds to wait. */
  function KeptFrom(rotation: seq<nat>, t: nat): seq<int>
    decreases |rotation| - t
  {
    if t >= |rotation| then []
    else (if rotation[t] > 0 then [t] else []) + KeptFrom(rotation, t + 1)
  }

  /** Rotations, after the timers in front of t have been visited. */
  ghost predicate Decremented(before: seq<nat>, after: seq<nat>, t: nat) {
    && |before| == |after|
    && forall i :: 0 <= i < |before| ==>
         after[i] == if i < t && before[i] > 0 then before[i] - 1 else before[i]
  }

  lemma VisitDecrements(ver: Version, r0: seq<nat>, m: Memory, t: nat)
    requires Unvisited(m, |r0|, t) && t < |r0| && Decremented(r0, m.rotation, t)
    ensures Decremented(r0, Visit(ver, m, |r0|, t).rotation, t + 1)
  {
  }

  /** What the repaired traversal leaves is the list of the timers that are not due. */
  lemma {:induction false} WholeWalk(r0: seq<nat>, m: Memory, t: nat, kept: seq<int>)
    requires Sound(m, |r0|, t, kept) && Decremented(r0, m.rotation, t)
    ensures Unvisited(m, |r0|, t)
    ensures var r := Walk(Repaired, m, |r0|, t);
            Sound(r, |r0|, |r0|, kept + KeptFrom(r0, t)) && Decremented(r0, r.rotation, |r0|)
    decreases |r0| - t
  {
    hide IsList, Visit, Decremented, Sound, KeptFrom;
    SoundFacts(m, |r0|, t, kept);
    if t == |r0| {
      assert KeptFrom(r0, t) == [] by {
        KeptNone(r0, t);
      }
      assert kept + [] == kept;
    } else {
      assert m.rotation[t] == r0[t] by {
        AtVisit(r0, m, t);
      }
      SoundVisit(m, |r0|, t, kept);
      VisitDecrements(Repaired, r0, m, t);
      var kept' := if r0[t] > 0 then kept + [t] else kept;
      WholeWalk(r0, Visit(Repaired, m, |r0|, t), t + 1, kept');
      KeptNext(r0, t, kept);
    }
  }

  lemma SoundFacts(m: Memory, n: nat, t: nat, kept: seq<int>)
    requires Sound(m, n, t, kept)
    ensures Unvisited(m, n, t) && t <= n
  {
  }

  lemma KeptNone(r0: seq<nat>, t: nat)
    requires t >= |r0|
    ensures KeptFrom(r0, t) == []
  {
  }

  lemma KeptNext(r0: seq<nat>, t: nat, kept: seq<int>)
    requires t < |r0|
    ensures (if r0[t] > 0 then kept + [t] else kept) + KeptFrom(r0, t + 1) == kept + KeptFrom(r0, t)
  {
  }

  lemma AtVisit(r0: seq<nat>, m: Memory, t: nat)
    requires t < |r0| && Decremented(r0, m.rotation, t)
    ensures |m.rotation| == |r0| && m.rotation[t] == r0[t]
  {
  }

  // ---------- The traversal as it is written ----------

  ghost predicate SomeKept(r0: seq<nat>, t: nat)
    requires t <= |r0|
  {
    exists j :: 0 <= j < t && r0[j] > 0
  }

  /**
  Whether a timer can still be reached from the slot: it is not due, or it comes right behind a due timer that is
  itself behind one that is not due.
  */
  ghost predicate Stays(r0: seq<nat>, i: nat)
    requires i < |r0|
  {
    r0[i] > 0 || (i > 0 && r0[i - 1] == 0 && SomeKept(r0, i))
  }

  ghost function StayFrom(r0: seq<nat>, t: nat): seq<int>
    decreases |r0| - t
  {
    if t >= |r0| then []
    else (if Stays(r0, t) then [t] else []) + StayFrom(r0, t + 1)
  }

  /** The prev pointer of a timer when it is visited. */
  ghost function BackOf(r0: seq<nat>, i: nat): int
    requires i < |r0|
  {
    if !SomeKept(r0, i) then NIL else if r0[i - 1] > 0 then i - 1 else i
  }

  /** From head on, next leads through l. */
  ghost predicate Forward(m: Memory, n: nat, l: seq<int>) {
    && Shaped(m, n)
    && (forall i :: 0 <= i < |l| ==> 0 <= l[i] < n)
    && (forall i, j :: 0 <= i < |l| && 0 <= j < |l| && j == i + 1 ==> m.next[l[i]] == l[j])
    && (if l == [] then m.head == NIL else m.head == l[0] && m.next[l[|l| - 1]] == NIL)
  }

  /** The first t timers have been visited, and l are those of them that can still be reached. */
  ghost predicate Trail(r0: seq<nat>, m: Memory, t: nat, l: seq<int>) {
    var n := |r0|;
    && Unvisited(m, n, t) && Forward(m, n, l + Range(t, n)) && Increasing(l)
    && (forall k :: 0 <= k < |l| ==> 0 <= l[k] < t && Stays(r0, l[k]) && m.prev[l[k]] == BackOf(r0, l[k]))
    && (l != [] <==> SomeKept(r0, t))
    && (t > 0 && r0[t - 1] > 0 ==> l != [] && l[|l| - 1] == t - 1)
    && (t < n ==> m.prev[t] == BackOf(r0, t))
    && (forall i :: t < i < n ==> m.prev[i] == i - 1)
  }

  lemma SomeKeptNext(r0: seq<nat>, t: nat)
    requires t < |r0|
    ensures SomeKept(r0, t + 1) <==> SomeKept(r0, t) || r0[t] > 0
    ensures t + 1 < |r0| ==>
              BackOf(r0, t + 1) == if !SomeKept(r0, t) && r0[t] == 0 then NIL else if r0[t] > 0 then t else t + 1
  {
    if r0[t] > 0 {
      assert SomeKept(r0, t + 1);
    }
  }

  lemma TrailKeep(r0: seq<nat>, m: Memory, t: nat, l: seq<int>)
    requires Trail(r0, m, t, l) && t < |r0| && r0[t] == m.rotation[t] > 0
    ensures Trail(r0, Visit(AsWritten, m, |r0|, t), t + 1, l + [t])
  {
    hide SomeKept, BackOf;
    ListAt(|r0|, t, l);
    SomeKeptNext(r0, t);
  }

  lemma TrailDropHead(r0: seq<nat>, m: Memory, t: nat)
    requires Trail(r0, m, t, []) && t < |r0| && r0[t] == m.rotation[t] == 0
    ensures Trail(r0, Visit(AsWritten, m, |r0|, t), t + 1, [])
  {
    hide SomeKept, BackOf, Range, Forward;
    EmptyFront(Range(t, |r0|));
    EmptyFront(Range(t + 1, |r0|));
    SomeKeptNext(r0, t);
    HeadOfTail(m, |r0|, t);
    TailIsForward(Visit(AsWritten, m, |r0|, t), |r0|, t + 1);
  }

  lemma HeadOfTail(m: Memory, n: nat, t: nat)
    requires Forward(m, n, Range(t, n)) && t < n
    ensures m.head == t
  {
    assert Range(t, n)[0] == t;
  }

  lemma TailIsForward(m: Memory, n: nat, t: nat)
    requires Shaped(m, n) && t <= n && m.head == (if t < n then t else NIL)
    requires forall i :: t <= i < n ==> m.next[i] == if i + 1 < n then i + 1 else NIL
    ensures Forward(m, n, Range(t, n))
  {
  }

  /** A due timer right behind one that is not due is taken out of the forward list. */
  lemma TrailUnlink(r0: seq<nat>, m: Memory, t: nat, l: seq<int>)
    requires Trail(r0, m, t, l) && 0 < t < |r0| && r0[t] == m.rotation[t] == 0 && r0[t - 1] > 0
    ensures Trail(r0, Visit(AsWritten, m, |r0|, t), t + 1, l)
  {
    hide SomeKept;
    ListAt(|r0|, t, l);
    SomeKeptNext(r0, t);
    SomeKeptNext(r0, t - 1);
    assert m.prev[t] == t - 1 == l[|l| - 1] && m.head == (l + Range(t, |r0|))[0] == l[0];
    Bypassed(m, Visit(AsWritten, m, |r0|, t), |r0|, t, l);
  }

  lemma Bypassed(m: Memory, r: Memory, n: nat, t: nat, l: seq<int>)
    requires Forward(m, n, l + Range(t, n)) && t < n && l != [] && Increasing(l) && l[|l| - 1] < t
    requires Shaped(r, n) && r.head == m.head
    requires r.next == m.next[l[|l| - 1] := m.next[t]]
    ensures Forward(r, n, l + Range(t + 1, n))
  {
    ListAt(n, t, l);
    var a, b, k := l + Range(t, n), l + Range(t + 1, n), |l|;
    assert a[k] == t && a[0] == l[0];
    assert t + 1 < n ==> a[k + 1] == t + 1;
    forall i, j | 0 <= i < |b| && 0 <= j < |b| && j == i + 1
      ensures r.next[b[i]] == b[j]
    {
      if j < k {
        assert a[i] == b[i] && a[j] == b[j];
      } else if i >= k {
        assert a[i + 1] == b[i] && a[j + 1] == b[j];
      }
    }
    assert b[|b| - 1] == if t + 1 < n then n - 1 else l[k - 1];
    assert a[|a| - 1] == n - 1;
  }

  /** A due timer behind another one, behind one that is not due, points back to itself and is not taken out. */
  lemma TrailStay(r0: seq<nat>, m: Memory, t: nat, l: seq<int>)
    requires Trail(r0, m, t, l) && 0 < t < |r0| && r0[t] == m.rotation[t] == 0 && r0[t - 1] == 0 && l != []
    ensures Trail(r0, Visit(AsWritten, m, |r0|, t), t + 1, l + [t])
  {
    hide SomeKept;
    ListAt(|r0|, t, l);
    SomeKeptNext(r0, t);
    assert m.prev[t] == t && m.head == (l + Range(t, |r0|))[0] == l[0];
    assert Visit(AsWritten, m, |r0|, t).next == m.next;
  }

  lemma TrailVisit(r0: seq<nat>, m: Memory, t: nat, l: seq<int>)
    requires Trail(r0, m, t, l) && t < |r0| && r0[t] == m.rotation[t]
    ensures Trail(r0, Visit(AsWritten, m, |r0|, t), t + 1, if Stays(r0, t) then l + [t] else l)
  {
    hide Trail, Visit;
    assert l != [] <==> SomeKept(r0, t) by {
      TrailKept(r0, m, t, l);
    }
    if r0[t] > 0 {
      TrailKeep(r0, m, t, l);
    } else if l == [] {
      TrailDropHead(r0, m, t);
    } else if r0[t - 1] > 0 {
      TrailUnlink(r0, m, t, l);
    } else {
      TrailStay(r0, m, t, l);
    }
  }

  lemma TrailKept(r0: seq<nat>, m: Memory, t: nat, l: seq<int>)
    requires Trail(r0, m, t, l)
    ensures Unvisited(m, |r0|, t) && (l != [] <==> SomeKept(r0, t))
  {
  }

  /** What the traversal as written leaves, exactly: the forward list, and where each timer in it points back. */
  lemma {:induction false} WholeTrail(r0: seq<nat>, m: Memory, t: nat, l: seq<int>)
    requires Trail(r0, m, t, l) && Decremented(r0, m.rotation, t)
    ensures Unvisited(m, |r0|, t)
    ensures var r := Walk(AsWritten, m, |r0|, t);
            Trail(r0, r, |r0|, l + StayFrom(r0, t)) && Decremented(r0, r.rotation, |r0|)
    decreases |r0| - t
  {
    hide Trail, Visit, Decremented, Stays;
    TrailKept(r0, m, t, l);
    if t == |r0| {
      assert l + [] == l;
    } else {
      AtVisit(r0, m, t);
      TrailVisit(r0, m, t, l);
      VisitDecrements(AsWritten, r0, m, t);
      var l' := if Stays(r0, t) then l + [t] else l;
      WholeTrail(r0, Visit(AsWritten, m, |r0|, t), t + 1, l');
      assert l' + StayFrom(r0, t + 1) == l + StayFrom(r0, t);
    }
  }

  // ---------- When the traversal as written is right ----------

  /** A due timer, other than the last, comes behind one that is not due. */
  ghost predicate Spoils(r0: seq<nat>) {
    exists i, k :: 0 <= i < k && k + 1 < |r0| && r0[i] > 0 && r0[k] == 0
  }

  lemma {:induction false} StayIn(r0: seq<nat>, t: nat)
    ensures var l := StayFrom(r0, t);
            && Increasing(l) && (forall i :: 0 <= i < |l| ==> t <= l[i] < |r0| && Stays(r0, l[i]))
            && forall k :: t <= k < |r0| && Stays(r0, k) ==> k in l
    decreases |r0| - t
  {
    hide Stays;
    if t < |r0| {
      StayIn(r0, t + 1);
    }
  }

  lemma UnspoiltStay(r0: seq<nat>, i: nat)
    requires !Spoils(r0) && i < |r0|
    ensures Stays(r0, i) <==> r0[i] > 0
    ensures SomeKept(r0, i) ==> i > 0 && (i + 1 < |r0| || r0[i] > 0 ==> r0[i - 1] > 0)
  {
  }

  lemma {:induction false} StayersAreKept(r0: seq<nat>, t: nat)
    requires !Spoils(r0)
    ensures StayFrom(r0, t) == KeptFrom(r0, t)
    decreases |r0| - t
  {
    if t < |r0| {
      StayersAreKept(r0, t + 1);
      UnspoiltStay(r0, t);
    }
  }

  /** If no due timer but the last comes behind a kept one, every timer points back to the one in front of it. */
  lemma UnspoiltIsSound(r0: seq<nat>, r: Memory, l: seq<int>)
    requires Trail(r0, r, |r0|, l) && l == StayFrom(r0, 0) && !Spoils(r0)
    ensures Sound(r, |r0|, |r0|, l)
  {
    hide Stays, StayFrom, Spoils, BackOf, SomeKept, Forward, IsList;
    assert l + Range(|r0|, |r0|) == l;
    forall i, j | 0 <= i < |l| && 0 <= j < |l| && j == i + 1
      ensures r.prev[l[j]] == l[i]
    {
      BackIsPredecessor(r0, l, i, j);
    }
    if l != [] {
      FirstHasNone(r0, l);
    }
    ForwardIsList(r, |r0|, l);
  }

  lemma ForwardIsList(m: Memory, n: nat, l: seq<int>)
    requires Forward(m, n, l)
    requires forall i, j :: 0 <= i < |l| && 0 <= j < |l| && j == i + 1 ==> m.prev[l[j]] == l[i]
    requires l != [] ==> m.prev[l[0]] == NIL
    ensures IsList(m, n, l)
  {
  }

  lemma Adjacent(l: seq<int>, j: nat)
    requires Increasing(l) && j < |l| && l[j] - 1 in l
    ensures j > 0 && l[j - 1] == l[j] - 1
  {
    var k :| 0 <= k < |l| && l[k] == l[j] - 1;
    assert k < j && l[j - 1] < l[j];
    assert l[k] <= l[j - 1];
  }

  lemma BackIsPredecessor(r0: seq<nat>, l: seq<int>, i: nat, j: nat)
    requires l == StayFrom(r0, 0) && j == i + 1 < |l| && !Spoils(r0)
    ensures 0 <= l[j] < |r0| && BackOf(r0, l[j]) == l[i]
  {
    hide StayFrom, Spoils, SomeKept;
    StayIn(r0, 0);
    UnspoiltStay(r0, l[i]);
    UnspoiltStay(r0, l[j]);
    assert SomeKept(r0, l[j]) by {
      KeptBefore(r0, l[i], l[j]);
    }
    assert Stays(r0, l[j] - 1);
    Adjacent(l, j);
  }

  lemma KeptBefore(r0: seq<nat>, i: nat, t: nat)
    requires i < t <= |r0| && r0[i] > 0
    ensures SomeKept(r0, t)
  {
  }

  lemma FirstHasNone(r0: seq<nat>, l: seq<int>)
    requires l == StayFrom(r0, 0) && l != []
    ensures 0 <= l[0] < |r0| && BackOf(r0, l[0]) == NIL
  {
    StayIn(r0, 0);
    forall j | 0 <= j < |r0| && r0[j] > 0
      ensures l[0] <= j
    {
      assert Stays(r0, j);
      var k :| 0 <= k < |l| && l[k] == j;
      assert k > 0 ==> l[0] < l[k];
    }
  }

  /** Otherwise a timer that is not due is followed, in the list that is left, by one that does not point back. */
  lemma SpoiltAt(r0: seq<nat>, r: Memory, l: seq<int>) returns (a: nat, b: nat)
    requires Trail(r0, r, |r0|, l) && l == StayFrom(r0, 0) && Spoils(r0)
    ensures b == a + 1 < |l| && 0 <= l[a] < |r0| && 0 <= l[b] < |r0|
    ensures r0[l[a]] > 0 && r.next[l[a]] == l[b] && r.prev[l[b]] == l[b]
  {
    hide Trail, Stays;
    var p := LastBeforeDue(r0);
    StayIn(r0, 0);
    StayingAround(r0, p);
    a :| 0 <= a < |l| && l[a] == p;
    b :| 0 <= b < |l| && l[b] == p + 2;
    assert a < b;
    assert l[a] < l[a + 1] && l[a + 1] in l;
    assert l[a + 1] <= l[b];
    TrailPointers(r0, r, l, a, b);
  }

  lemma {:induction false} LastBefore(r0: seq<nat>, i: nat, k: nat) returns (p: nat)
    requires i < k < |r0| && r0[i] > 0 && r0[k] == 0
    ensures i <= p < k && r0[p] > 0 && r0[p + 1] == 0
    decreases k
  {
    if r0[k - 1] > 0 {
      p := k - 1;
    } else {
      p := LastBefore(r0, i, k - 1);
    }
  }

  lemma LastBeforeDue(r0: seq<nat>) returns (p: nat)
    requires Spoils(r0)
    ensures p + 2 < |r0| && r0[p] > 0 && r0[p + 1] == 0
  {
    var i, k :| 0 <= i < k && k + 1 < |r0| && r0[i] > 0 && r0[k] == 0;
    p := LastBefore(r0, i, k);
  }

  lemma StayingAround(r0: seq<nat>, p: nat)
    requires p + 2 < |r0| && r0[p] > 0 && r0[p + 1] == 0
    ensures Stays(r0, p) && !Stays(r0, p + 1) && Stays(r0, p + 2) && BackOf(r0, p + 2) == p + 2
  {
    assert SomeKept(r0, p + 2);
  }

  lemma TrailPointers(r0: seq<nat>, r: Memory, l: seq<int>, a: nat, b: nat)
    requires Trail(r0, r, |r0|, l) && b == a + 1 < |l|
    ensures 0 <= l[a] < |r0| && 0 <= l[b] < |r0|
    ensures r.next[l[a]] == l[b] && r.prev[l[b]] == BackOf(r0, l[b])
  {
    assert l + [] == l;
  }

  // ---------- A slot as it is before a tick ----------

  function InitialMemory(rotation: seq<nat>): Memory {
    var n := |rotation|;
    Memory(seq(n, i => if i + 1 < n then i + 1 else NIL), seq(n, i => i - 1), rotation, if n == 0 then NIL else 0)
  }

  lemma EmptyFront(l: seq<int>)
    ensures [] + l == l
  {
  }

  lemma InitialFacts(rotation: seq<nat>)
    ensures var m, n := InitialMemory(rotation), |rotation|;
            && Shaped(m, n) && m.head == (if n == 0 then NIL else 0)
            && forall i :: 0 <= i < n ==> m.next[i] == (if i + 1 < n then i + 1 else NIL) && m.prev[i] == i - 1
  {
  }

  lemma InitialSound(rotation: seq<nat>)
    ensures Sound(InitialMemory(rotation), |rotation|, 0, [])
  {
    hide IsList, InitialMemory, Range;
    InitialFacts(rotation);
    TailIsList(InitialMemory(rotation), |rotation|, 0);
    EmptyFront(Range(0, |rotation|));
  }

  lemma InitialTrail(rotation: seq<nat>)
    ensures Trail(rotation, InitialMemory(rotation), 0, [])
    ensures Decremented(rotation, InitialMemory(rotation).rotation, 0)
  {
    InitialSound(rotation);
  }

  lemma TrailMeans(r0: seq<nat>, r: Memory, l: seq<int>)
    requires Trail(r0, r, |r0|, l)
    ensures Shaped(r, |r0|) && Forward(r, |r0|, l)
    ensures forall k :: 0 <= k < |l| ==> 0 <= l[k] < |r0| && r.prev[l[k]] == BackOf(r0, l[k])
    ensures forall i, j :: 0 <= i < j < |l| ==> l[i] != l[j]
  {
    assert l + Range(|r0|, |r0|) == l;
  }

  lemma NoList(m: Memory, n: nat, l: seq<int>, a: nat, b: nat)
    requires Shaped(m, n) && b == a + 1 < |l| && 0 <= l[b] < n && l[a] != l[b] == m.prev[l[b]]
    ensures !IsList(m, n, l)
  {
  }

  lemma SoundIsList(m: Memory, n: nat, l: seq<int>)
    requires Sound(m, n, n, l)
    ensures IsList(m, n, l)
  {
    assert l + Range(n, n) == l;
  }

  /**
  The slot after a tick of the code as written, where l is the list of the timers that stay. It is a list linked
  both ways if and only if no due timer, other than the last, comes behind a kept one.
  */
  ghost predicate AsWrittenEnd(r0: seq<nat>, r: Memory, l: seq<int>) {
    var n := |r0|;
    && Forward(r, n, l)
    && (forall k :: 0 <= k < |l| ==> r.prev[l[k]] == BackOf(r0, l[k]))
    && (IsList(r, n, l) <==> !Spoils(r0))
    && (!Spoils(r0) ==> l == KeptFrom(r0, 0) && Sound(r, n, n, l))
    && (Spoils(r0) ==> exists a, b :: b == a + 1 && 0 <= a && b < |l| && r0[l[a]] > 0 && r.prev[l[b]] != l[a])
  }

  lemma AsWrittenWalk(r0: seq<nat>)
    ensures Unvisited(InitialMemory(r0), |r0|, 0)
    ensures var r := Walk(AsWritten, InitialMemory(r0), |r0|, 0);
            AsWrittenEnd(r0, r, StayFrom(r0, 0)) && Decremented(r0, r.rotation, |r0|)
  {
    hide StayFrom, InitialMemory, Walk, Trail, Unvisited, Decremented, AsWrittenEnd;
    InitialTrail(r0);
    WholeTrail(r0, InitialMemory(r0), 0, []);
    EmptyFront(StayFrom(r0, 0));
    TrailEnd(r0, Walk(AsWritten, InitialMemory(r0), |r0|, 0), StayFrom(r0, 0));
  }

  lemma TrailEnd(r0: seq<nat>, r: Memory, l: seq<int>)
    requires Trail(r0, r, |r0|, l) && l == StayFrom(r0, 0)
    ensures AsWrittenEnd(r0, r, l)
  {
    hide Stays, StayFrom, KeptFrom, BackOf, SomeKept, Spoils, Trail, Forward, IsList, Sound;
    TrailMeans(r0, r, l);
    if Spoils(r0) {
      var a, b := SpoiltAt(r0, r, l);
      NoList(r, |r0|, l, a, b);
    } else {
      UnspoiltIsSound(r0, r, l);
      SoundIsList(r, |r0|, l);
      StayersAreKept(r0, 0);
    }
  }

  lemma {:induction false} KeptIn(rotation: seq<nat>, t: nat)
    ensures var l := KeptFrom(rotation, t);
            Increasing(l) && forall i :: 0 <= i < |l| ==> t <= l[i] < |rotation| && rotation[l[i]] > 0
    decreases |rotation| - t
  {
    if t < |rotation| {
      KeptIn(rotation, t + 1);
    }
  }
}
