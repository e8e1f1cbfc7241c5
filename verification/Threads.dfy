/**
Counting threads: pcs[t] is where thread t is in its program.
*/
module Threads {
  /** How many threads are where f says. */
  function Count<P>(pcs: seq<P>, f: P -> bool): nat {
    if pcs == [] then 0 else (if f(pcs[0]) then 1 else 0) + Count(pcs[1..], f)
  }

  lemma {:induction false} CountMoved<P>(pcs: seq<P>, t: nat, pc: P, f: P -> bool)
    requires t < |pcs|
    ensures Count(pcs[t := pc], f) + (if f(pcs[t]) then 1 else 0) == Count(pcs, f) + (if f(pc) then 1 else 0)
  {
    if t == 0 {
      assert pcs[t := pc][1..] == pcs[1..];
    } else {
      assert pcs[t := pc][1..] == pcs[1..][t - 1 := pc];
      CountMoved(pcs[1..], t - 1, pc, f);
    }
  }

  lemma {:induction false} CountedOne<P>(pcs: seq<P>, t: nat, f: P -> bool)
    requires t < |pcs| && f(pcs[t])
    ensures Count(pcs, f) > 0
  {
    if t > 0 {
      CountedOne(pcs[1..], t - 1, f);
    }
  }

  lemma {:induction false} CountFinds<P>(pcs: seq<P>, f: P -> bool) returns (t: nat)
    requires Count(pcs, f) > 0
    ensures t < |pcs| && f(pcs[t])
  {
    if f(pcs[0]) {
      t := 0;
    } else {
      var u := CountFinds(pcs[1..], f);
      t := u + 1;
    }
  }

  lemma {:induction false} CountsNone<P>(pcs: seq<P>, f: P -> bool)
    requires forall t :: 0 <= t < |pcs| ==> !f(pcs[t])
    ensures Count(pcs, f) == 0
  {
    if pcs != [] {
      CountsNone(pcs[1..], f);
    }
  }

  /** What all threads have in hand. */
  function Gather<P, L>(pcs: seq<P>, f: P -> multiset<L>): multiset<L> {
    if pcs == [] then multiset{} else f(pcs[0]) + Gather(pcs[1..], f)
  }

  lemma {:induction false} GatherMoved<P, L>(pcs: seq<P>, t: nat, pc: P, f: P -> multiset<L>)
    requires t < |pcs|
    ensures Gather(pcs[t := pc], f) + f(pcs[t]) == Gather(pcs, f) + f(pc)
  {
    if t == 0 {
      assert pcs[t := pc][1..] == pcs[1..];
    } else {
      assert pcs[t := pc][1..] == pcs[1..][t - 1 := pc];
      GatherMoved(pcs[1..], t - 1, pc, f);
      var rest := pcs[1..][t - 1 := pc];
      assert Gather(pcs[t := pc], f) == f(pcs[0]) + Gather(rest, f);
      assert (f(pcs[0]) + Gather(rest, f)) + f(pcs[t]) == f(pcs[0]) + (Gather(rest, f) + f(pcs[t]));
      assert (f(pcs[0]) + Gather(pcs[1..], f)) + f(pc) == f(pcs[0]) + (Gather(pcs[1..], f) + f(pc));
    }
  }

  lemma {:induction false} GathersNone<P, L>(pcs: seq<P>, f: P -> multiset<L>)
    requires forall t :: 0 <= t < |pcs| ==> f(pcs[t]) == multiset{}
    ensures Gather(pcs, f) == multiset{}
  {
    if pcs != [] {
      GathersNone(pcs[1..], f);
    }
  }

  lemma {:induction false} GatheredFrom<P, L>(pcs: seq<P>, t: nat, f: P -> multiset<L>)
    requires t < |pcs|
    ensures f(pcs[t]) <= Gather(pcs, f)
  {
    if t > 0 {
      GatheredFrom(pcs[1..], t - 1, f);
    }
  }
}
