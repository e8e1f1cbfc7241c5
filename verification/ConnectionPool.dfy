/**
The pool of database connections, for any number of threads that each release the connection they have got.
The statements under the lock are steps of their own, so that FreeConn and CurConn are seen between them.

The result of sem_wait is not looked at here either: strays counts the waits that a signal interrupted.
*/
module ConnectionPool {
  import opened Threads

  /**
  GetConnection: Checked (the list was not empty), Waited, Got (popped), GotFree (--FreeConn), GotBoth
  (++CurConn), Using. ReleaseConnection: Put (pushed), PutFree (++FreeConn), PutBoth (--CurConn), Unlocked.
  Entered: inside the lock, before the pop. Returning: inside the lock, before the push.
  */
  datatype Pc<C> =
    | Idle
    | Checked
    | Waited
    | Entered
    | Got(con: C)
    | GotFree(con: C)
    | GotBoth(con: C)
    | Using(con: C)
    | Returning(con: C)
    | Put
    | PutFree
    | PutBoth
    | Unlocked

  datatype Pool<C> = Pool(connList: seq<C>, freeConn: int, curConn: int, sem: nat, lockedBy: int,
                          pcs: seq<Pc<C>>, strays: nat)

  const NOBODY := -1

  datatype Event = Check(t: nat) | Wait(t: nat) | Interrupt(t: nat) | Go(t: nat)

  function Initial<C>(conns: seq<C>, threads: nat): Pool<C> {
    Pool(conns, |conns|, 0, |conns|, NOBODY, seq(threads, t => Idle), 0)
  }

  predicate Inside<C>(pc: Pc<C>) {
    pc.Entered? || pc.Got? || pc.GotFree? || pc.GotBoth? || pc.Returning? || pc.Put? || pc.PutFree? || pc.PutBoth?
  }

  /** Go is the next step of a thread after the wait; the pop of an empty list is not defined and not enabled. */
  predicate Enabled<C>(s: Pool<C>, e: Event) {
    && e.t < |s.pcs|
    && match e
       case Check(t) => s.pcs[t].Idle?
       case Wait(t) => s.pcs[t].Checked? && s.sem > 0
       case Interrupt(t) => s.pcs[t].Checked?
       case Go(t) =>
         match s.pcs[t]
         case Idle => false
         case Checked => false
         case Waited => s.lockedBy == NOBODY
         case Using(_) => s.lockedBy == NOBODY
         case Entered => s.connList != []
         case _ => true
  }

  function Moved<C>(s: Pool<C>, t: nat, pc: Pc<C>): Pool<C>
    requires t < |s.pcs|
  {
    s.(pcs := s.pcs[t := pc])
  }

  function Step<C>(s: Pool<C>, e: Event): Pool<C>
    requires Enabled(s, e)
  {
    var t := e.t;
    match e
    case Check(_) => if s.connList == [] then s else Moved(s, t, Checked)
    case Wait(_) => Moved(s, t, Waited).(sem := s.sem - 1)
    case Interrupt(_) => Moved(s, t, Waited).(strays := s.strays + 1)
    case Go(_) =>
      match s.pcs[t]
      case Waited => Moved(s, t, Entered).(lockedBy := t)
      case Entered => Moved(s, t, Got(s.connList[0])).(connList := s.connList[1..])
      case Got(c) => Moved(s, t, GotFree(c)).(freeConn := s.freeConn - 1)
      case GotFree(c) => Moved(s, t, GotBoth(c)).(curConn := s.curConn + 1)
      case GotBoth(c) => Moved(s, t, Using(c)).(lockedBy := NOBODY)
      case Using(c) => Moved(s, t, Returning(c)).(lockedBy := t)
      case Returning(c) => Moved(s, t, Put).(connList := s.connList + [c])
      case Put => Moved(s, t, PutFree).(freeConn := s.freeConn + 1)
      case PutFree => Moved(s, t, PutBoth).(curConn := s.curConn - 1)
      case PutBoth => Moved(s, t, Unlocked).(lockedBy := NOBODY)
      case Unlocked => Moved(s, t, Idle).(sem := s.sem + 1)
      case _ => s
  }

  /** A thread that asks for a connection goes on to the wait exactly if it sees one in the list. */
  lemma CheckedIfAny<C>(s: Pool<C>, e: Event)
    requires Enabled(s, e) && e.t < |s.pcs| && s.pcs[e.t].Idle?
    ensures var r := Step(s, e);
            && e.Check? && e.t < |r.pcs|
            && (s.connList == [] ==> r == s)
            && (s.connList != [] ==> r.pcs[e.t].Checked? && r.connList == s.connList && r.sem == s.sem)
  {
  }

  // ---------- The invariant ----------

  /** Past the wait, and not past the pop. */
  predicate BeforePop<C>(pc: Pc<C>) {
    pc.Waited? || pc.Entered?
  }

  /** Past the push, and not past the post. */
  predicate BeforePost<C>(pc: Pc<C>) {
    pc.Put? || pc.PutFree? || pc.PutBoth? || pc.Unlocked?
  }

  predicate Has<C>(pc: Pc<C>) {
    pc.Got? || pc.GotFree? || pc.GotBoth? || pc.Using? || pc.Returning?
  }

  function HandOf<C>(pc: Pc<C>): seq<C> {
    if Has(pc) then [pc.con] else []
  }

  ghost function InHand<C>(pc: Pc<C>): multiset<C> {
    multiset(HandOf(pc))
  }

  /** How far FreeConn is ahead of the list while a thread at pc is inside the lock, and CurConn of the holders. */
  function FreeAhead<C>(pc: Pc<C>): int {
    if pc.Got? then 1 else if pc.Put? then -1 else 0
  }

  function CurAhead<C>(pc: Pc<C>): int {
    if pc.Got? || pc.GotFree? then -1 else if pc.Put? || pc.PutFree? then 1 else 0
  }

  ghost predicate Locked<C>(s: Pool<C>) {
    && (s.lockedBy == NOBODY || 0 <= s.lockedBy < |s.pcs|)
    && forall t :: 0 <= t < |s.pcs| ==> (Inside(s.pcs[t]) <==> t == s.lockedBy)
  }

  ghost predicate CountsRight<C>(s: Pool<C>)
    requires Locked(s)
  {
    if s.lockedBy == NOBODY then s.freeConn == |s.connList| && s.curConn == Count(s.pcs, Has)
    else
      && s.freeConn == |s.connList| + FreeAhead(s.pcs[s.lockedBy])
      && s.curConn == Count(s.pcs, Has) + CurAhead(s.pcs[s.lockedBy])
  }

  /** The free connections and those in use are the original ones. */
  ghost predicate Partition<C>(s: Pool<C>, conns: seq<C>) {
    multiset(s.connList) + Gather(s.pcs, InHand) == multiset(conns)
  }

  /** The list is as long as the semaphore and the threads inside the two gaps say, up to interrupted waits. */
  ghost predicate SemRight<C>(s: Pool<C>) {
    |s.connList| + s.strays == s.sem + Count(s.pcs, BeforePop) + Count(s.pcs, BeforePost)
  }

  ghost predicate Inv<C>(s: Pool<C>, conns: seq<C>) {
    && Locked(s) && CountsRight(s) && SemRight(s) && Partition(s, conns)
    && |s.connList| + Count(s.pcs, Has) == |conns|
  }

  lemma StepMoves<C>(s: Pool<C>, e: Event)
    requires Locked(s) && Enabled(s, e)
    ensures var r := Step(s, e);
            r.pcs == s.pcs[e.t := r.pcs[e.t]] && Locked(r)
  {
  }

  function Bit(b: bool): int {
    if b then 1 else 0
  }

  lemma Recounted<C>(s: Pool<C>, t: nat, pc: Pc<C>)
    requires t < |s.pcs|
    ensures var u := s.pcs[t := pc];
            && Count(u, Has) == Count(s.pcs, Has) + Bit(Has(pc)) - Bit(Has(s.pcs[t]))
            && Count(u, BeforePop) == Count(s.pcs, BeforePop) + Bit(BeforePop(pc)) - Bit(BeforePop(s.pcs[t]))
            && Count(u, BeforePost) == Count(s.pcs, BeforePost) + Bit(BeforePost(pc)) - Bit(BeforePost(s.pcs[t]))
  {
    CountMoved(s.pcs, t, pc, Has);
    CountMoved(s.pcs, t, pc, BeforePop);
    CountMoved(s.pcs, t, pc, BeforePost);
  }

  lemma StepKeepsCounts<C>(s: Pool<C>, e: Event)
    requires Locked(s) && CountsRight(s) && Enabled(s, e) && Locked(Step(s, e))
    ensures CountsRight(Step(s, e))
    ensures var r := Step(s, e);
            |r.connList| + Count(r.pcs, Has) == |s.connList| + Count(s.pcs, Has)
  {
    hide Count, BeforePop, BeforePost;
    var r := Step(s, e);
    StepMoves(s, e);
    Recounted(s, e.t, r.pcs[e.t]);
  }

  lemma StepKeepsSem<C>(s: Pool<C>, e: Event)
    requires SemRight(s) && Locked(s) && Enabled(s, e)
    ensures SemRight(Step(s, e))
  {
    hide Count, Locked, Has;
    var r := Step(s, e);
    StepMoves(s, e);
    Recounted(s, e.t, r.pcs[e.t]);
  }

  /** What a step takes out of the list it leaves in the thread's hand, and the other way round. */
  lemma StepTransfers<C>(s: Pool<C>, e: Event)
    requires Enabled(s, e)
    ensures var r := Step(s, e);
            && e.t < |s.pcs| && |r.pcs| == |s.pcs|
            && (e.Go? && s.pcs[e.t].Entered? ==>
              HandOf(s.pcs[e.t]) == [] && s.connList == HandOf(r.pcs[e.t]) + r.connList)
            && (e.Go? && s.pcs[e.t].Returning? ==>
              HandOf(r.pcs[e.t]) == [] && r.connList == s.connList + HandOf(s.pcs[e.t]))
            && (!e.Go? || !(s.pcs[e.t].Entered? || s.pcs[e.t].Returning?) ==>
              HandOf(r.pcs[e.t]) == HandOf(s.pcs[e.t]) && r.connList == s.connList)
  {
  }

  lemma StepKeepsPartition<C>(s: Pool<C>, e: Event, conns: seq<C>)
    requires Partition(s, conns) && Locked(s) && Enabled(s, e)
    ensures Partition(Step(s, e), conns)
  {
    hide Locked, Step, Enabled, HandOf, Gather;
    var r := Step(s, e);
    StepTransfers(s, e);
    StepMoves(s, e);
    assert multiset(r.connList) + InHand(r.pcs[e.t]) == multiset(s.connList) + InHand(s.pcs[e.t]);
    GatherMoved(s.pcs, e.t, r.pcs[e.t], InHand);
    Exchanged(multiset(s.connList), multiset(r.connList), Gather(s.pcs, InHand), Gather(r.pcs, InHand),
              InHand(s.pcs[e.t]), InHand(r.pcs[e.t]));
  }

  lemma Exchanged<C>(l: multiset<C>, l': multiset<C>, g: multiset<C>, g': multiset<C>, a: multiset<C>, b: multiset<C>)
    requires g' + a == g + b && l' + b == l + a
    ensures l' + g' == l + g
  {
    assert (l' + g') + (a + b) == (l' + b) + (g' + a);
    assert (l + g) + (a + b) == (l + a) + (g + b);
    assert l' + g' == ((l' + g') + (a + b)) - (a + b);
    assert l + g == ((l + g) + (a + b)) - (a + b);
  }

  lemma StepKeeps<C>(s: Pool<C>, e: Event, conns: seq<C>)
    requires Inv(s, conns) && Enabled(s, e)
    ensures Inv(Step(s, e), conns)
  {
    hide CountsRight, SemRight, Partition, Step, Enabled, Locked;
    StepMoves(s, e);
    StepKeepsCounts(s, e);
    StepKeepsSem(s, e);
    StepKeepsPartition(s, e, conns);
  }

  // ---------- Whole runs ----------

  ghost predicate Runs<C>(s: Pool<C>, events: seq<Event>)
    decreases |events|
  {
    events != [] ==> Enabled(s, events[0]) && Runs(Step(s, events[0]), events[1..])
  }

  ghost function After<C>(s: Pool<C>, events: seq<Event>): Pool<C>
    requires Runs(s, events)
    decreases |events|
  {
    if events == [] then s else After(Step(s, events[0]), events[1..])
  }

  lemma {:induction false} RunKeeps<C>(s: Pool<C>, events: seq<Event>, conns: seq<C>)
    requires Inv(s, conns) && Runs(s, events)
    ensures Inv(After(s, events), conns)
    ensures (forall k :: 0 <= k < |events| ==> !events[k].Interrupt?) ==> After(s, events).strays == s.strays
    decreases |events|
  {
    hide Inv;
    if events != [] {
      StepKeeps(s, events[0], conns);
      RunKeeps(Step(s, events[0]), events[1..], conns);
    }
  }

  lemma InitialInv<C>(conns: seq<C>, threads: nat)
    ensures Inv(Initial(conns, threads), conns)
  {
    var s := Initial(conns, threads);
    CountsNone(s.pcs, Has);
    CountsNone(s.pcs, BeforePop);
    CountsNone(s.pcs, BeforePost);
    GathersNone(s.pcs, InHand);
  }

  /**
  In every run: the free connections and those in use are the original ones, each as often as at first; and
  when no thread is inside the lock, the two counters say how many there are of each.
  */
  lemma Conserved<C>(conns: seq<C>, threads: nat, events: seq<Event>)
    requires Runs(Initial(conns, threads), events)
    ensures var s := After(Initial(conns, threads), events);
            && multiset(s.connList) + Gather(s.pcs, InHand) == multiset(conns)
            && (s.lockedBy == NOBODY ==>
              s.freeConn == |s.connList| && s.curConn == Count(s.pcs, Has) && s.freeConn + s.curConn == |conns|)
  {
    InitialInv(conns, threads);
    RunKeeps(Initial(conns, threads), events, conns);
  }

  /** Distinct connections stay distinct: none is with two threads, or with a thread and in the list. */
  lemma NoneShared<C>(conns: seq<C>, threads: nat, events: seq<Event>, c: C)
    requires Runs(Initial(conns, threads), events) && multiset(conns)[c] <= 1
    ensures var s := After(Initial(conns, threads), events);
            forall t, u :: 0 <= t < u < |s.pcs| && Has(s.pcs[t]) && Has(s.pcs[u]) && s.pcs[t].con == c ==>
              s.pcs[u].con != c
    ensures var s := After(Initial(conns, threads), events);
            forall t :: 0 <= t < |s.pcs| && Has(s.pcs[t]) && s.pcs[t].con == c ==> c !in s.connList
    ensures multiset(After(Initial(conns, threads), events).connList)[c] <= 1
  {
    Conserved(conns, threads, events);
    var s := After(Initial(conns, threads), events);
    forall t, u | 0 <= t < u < |s.pcs| && Has(s.pcs[t]) && Has(s.pcs[u]) && s.pcs[t].con == c
      ensures s.pcs[u].con != c
    {
      if s.pcs[u].con == c {
        GatheredTwice(s.pcs, t, u, c);
      }
    }
    forall t | 0 <= t < |s.pcs| && Has(s.pcs[t]) && s.pcs[t].con == c
      ensures c !in s.connList
    {
      GatheredFrom(s.pcs, t, InHand);
    }
  }

  lemma {:induction false} GatheredTwice<C>(pcs: seq<Pc<C>>, t: nat, u: nat, c: C)
    requires t < u < |pcs| && Has(pcs[t]) && Has(pcs[u]) && pcs[t].con == pcs[u].con == c
    ensures Gather(pcs, InHand)[c] >= 2
  {
    if t == 0 {
      GatheredFrom(pcs[1..], u - 1, InHand);
      assert InHand(pcs[u]) == multiset{c} && InHand(pcs[0]) == multiset{c};
    } else {
      GatheredTwice(pcs[1..], t - 1, u - 1, c);
    }
  }

  /** Without interrupted waits, a thread that is about to pop finds a connection. */
  lemma NeverEmpty<C>(conns: seq<C>, threads: nat, events: seq<Event>)
    requires Runs(Initial(conns, threads), events)
    requires forall k :: 0 <= k < |events| ==> !events[k].Interrupt?
    ensures var s := After(Initial(conns, threads), events);
            forall t :: 0 <= t < |s.pcs| && s.pcs[t].Entered? ==> s.connList != []
  {
    InitialInv(conns, threads);
    RunKeeps(Initial(conns, threads), events, conns);
    var s := After(Initial(conns, threads), events);
    forall t | 0 <= t < |s.pcs| && s.pcs[t].Entered?
      ensures s.connList != []
    {
      CountedOne(s.pcs, t, BeforePop);
    }
  }

  /** An interrupted wait lets a thread through to the pop of an empty list, although it saw one that was not. */
  lemma StrayMeetsEmptyList<C>(s: Pool<C>, t: nat)
    requires t < |s.pcs| && s.pcs[t].Checked? && s.lockedBy == NOBODY && s.connList == []
    ensures var e := [Interrupt(t), Go(t)];
            && Runs(s, e)
            && t < |After(s, e).pcs| && After(s, e).pcs[t].Entered? && After(s, e).connList == []
  {
    var e := [Interrupt(t), Go(t)];
    var s1 := Step(s, e[0]);
    var s2 := Step(s1, e[1]);
    assert e[1..] == [Go(t)] && e[1..][1..] == [];
    assert Runs(s2, []);
    assert Runs(s1, e[1..]);
    assert After(s1, e[1..]) == s2;
  }

  lemma RunStep<C>(s: Pool<C>, e: Event, rest: seq<Event>)
    requires Enabled(s, e) && Runs(Step(s, e), rest)
    ensures Runs(s, [e] + rest) && After(s, [e] + rest) == After(Step(s, e), rest)
  {
    assert ([e] + rest)[1..] == rest;
  }

  /** The pool after thread t has taken the first connection of the list. */
  function Acquired<C>(s: Pool<C>, t: nat): Pool<C>
    requires t < |s.pcs| && s.connList != []
  {
    s.(connList := s.connList[1..], freeConn := s.freeConn - 1, curConn := s.curConn + 1,
       pcs := s.pcs[t := Using(s.connList[0])])
  }

  /** The pool after thread t has given its connection back. */
  function Released<C>(s: Pool<C>, t: nat): Pool<C>
    requires t < |s.pcs| && s.pcs[t].Using?
  {
    s.(connList := s.connList + [s.pcs[t].con], freeConn := s.freeConn + 1, curConn := s.curConn - 1, sem := s.sem + 1,
       pcs := s.pcs[t := Idle])
  }

  function Going(t: nat, n: nat, rest: seq<Event>): seq<Event> {
    if n == 0 then rest else [Go(t)] + Going(t, n - 1, rest)
  }

  /** What GetConnection does behind the wait, as one run. */
  lemma Takes<C>(s: Pool<C>, t: nat, rest: seq<Event>)
    requires t < |s.pcs| && s.pcs[t].Waited? && s.lockedBy == NOBODY && s.connList != []
    requires Runs(Acquired(s, t), rest)
    ensures Runs(s, Going(t, 5, rest)) && After(s, Going(t, 5, rest)) == After(Acquired(s, t), rest)
  {
    hide Step, Enabled, Acquired, Going;
    var s1, s2, s3, s4, s5 := Acquires(s, t);
    GoNone(t, rest);
    GoOn(s4, t, 0, rest);
    GoOn(s3, t, 1, rest);
    GoOn(s2, t, 2, rest);
    GoOn(s1, t, 3, rest);
    GoOn(s, t, 4, rest);
  }

  lemma GoNone(t: nat, rest: seq<Event>)
    ensures Going(t, 0, rest) == rest
  {
  }

  lemma GoOn<C>(s: Pool<C>, t: nat, n: nat, rest: seq<Event>)
    requires Enabled(s, Go(t)) && Runs(Step(s, Go(t)), Going(t, n, rest))
    ensures Runs(s, Going(t, n + 1, rest))
    ensures After(s, Going(t, n + 1, rest)) == After(Step(s, Go(t)), Going(t, n, rest))
  {
    hide Step, Enabled;
    RunStep(s, Go(t), Going(t, n, rest));
  }

  lemma Acquires<C>(s: Pool<C>, t: nat)
    returns (s1: Pool<C>, s2: Pool<C>, s3: Pool<C>, s4: Pool<C>, s5: Pool<C>)
    requires t < |s.pcs| && s.pcs[t].Waited? && s.lockedBy == NOBODY && s.connList != []
    ensures Enabled(s, Go(t)) && Step(s, Go(t)) == s1
    ensures Enabled(s1, Go(t)) && Step(s1, Go(t)) == s2
    ensures Enabled(s2, Go(t)) && Step(s2, Go(t)) == s3
    ensures Enabled(s3, Go(t)) && Step(s3, Go(t)) == s4
    ensures Enabled(s4, Go(t)) && Step(s4, Go(t)) == s5
    ensures s5 == Acquired(s, t)
  {
    var c := s.connList[0];
    s1 := s.(pcs := s.pcs[t := Entered], lockedBy := t);
    s2 := s1.(pcs := s.pcs[t := Got(c)], connList := s.connList[1..]);
    s3 := s2.(pcs := s.pcs[t := GotFree(c)], freeConn := s.freeConn - 1);
    s4 := s3.(pcs := s.pcs[t := GotBoth(c)], curConn := s.curConn + 1);
    s5 := s4.(pcs := s.pcs[t := Using(c)], lockedBy := NOBODY);
  }

  /** What ReleaseConnection does, as one run. */
  lemma Releases<C>(s: Pool<C>, t: nat, rest: seq<Event>)
    requires t < |s.pcs| && s.pcs[t].Using? && s.lockedBy == NOBODY
    requires Runs(Released(s, t), rest)
    ensures Runs(s, Going(t, 6, rest)) && After(s, Going(t, 6, rest)) == After(Released(s, t), rest)
  {
    hide Step, Enabled, Released, Going;
    var s1, s2, s3, s4, s5, s6 := GivesBack(s, t);
    GoNone(t, rest);
    GoOn(s5, t, 0, rest);
    GoOn(s4, t, 1, rest);
    GoOn(s3, t, 2, rest);
    GoOn(s2, t, 3, rest);
    GoOn(s1, t, 4, rest);
    GoOn(s, t, 5, rest);
  }

  lemma GivesBack<C>(s: Pool<C>, t: nat)
    returns (s1: Pool<C>, s2: Pool<C>, s3: Pool<C>, s4: Pool<C>, s5: Pool<C>, s6: Pool<C>)
    requires t < |s.pcs| && s.pcs[t].Using? && s.lockedBy == NOBODY
    ensures Enabled(s, Go(t)) && Step(s, Go(t)) == s1
    ensures Enabled(s1, Go(t)) && Step(s1, Go(t)) == s2
    ensures Enabled(s2, Go(t)) && Step(s2, Go(t)) == s3
    ensures Enabled(s3, Go(t)) && Step(s3, Go(t)) == s4
    ensures Enabled(s4, Go(t)) && Step(s4, Go(t)) == s5
    ensures Enabled(s5, Go(t)) && Step(s5, Go(t)) == s6
    ensures s6 == Released(s, t)
  {
    var c := s.pcs[t].con;
    s1 := s.(pcs := s.pcs[t := Returning(c)], lockedBy := t);
    s2 := s1.(pcs := s.pcs[t := Put], connList := s.connList + [c]);
    s3 := s2.(pcs := s.pcs[t := PutFree], freeConn := s.freeConn + 1);
    s4 := s3.(pcs := s.pcs[t := PutBoth], curConn := s.curConn - 1);
    s5 := s4.(pcs := s.pcs[t := Unlocked], lockedBy := NOBODY);
    s6 := s5.(pcs := s.pcs[t := Idle], sem := s.sem + 1);
  }

  /**
  A thread that gets a connection and gives it back, while nobody else moves, leaves the pool as it was but for the
  order of the list: the connection goes from its front to its end.
  */
  lemma RoundTrip<C>(s: Pool<C>, t: nat) returns (events: seq<Event>)
    requires t < |s.pcs| && s.pcs[t].Idle? && s.lockedBy == NOBODY && s.connList != [] && s.sem > 0
    ensures Runs(s, events)
    ensures After(s, events) == s.(connList := s.connList[1..] + [s.connList[0]])
  {
    hide Going;
    var s1 := Step(s, Check(t));
    var s2 := Step(s1, Wait(t));
    var s3 := Acquired(s2, t);
    Releases(s3, t, []);
    Takes(s2, t, Going(t, 6, []));
    RunStep(s1, Wait(t), Going(t, 5, Going(t, 6, [])));
    RunStep(s, Check(t), [Wait(t)] + Going(t, 5, Going(t, 6, [])));
    events := [Check(t)] + ([Wait(t)] + Going(t, 5, Going(t, 6, [])));
    assert Released(s3, t).pcs == s.pcs;
  }

  /** Such a state is reached with one connection and two threads that both find it in the list. */
  lemma StrayReached<C>(c: C) returns (events: seq<Event>)
    ensures Runs(Initial([c], 2), events)
    ensures var s := After(Initial([c], 2), events);
            |s.pcs| == 2 && s.pcs[1].Entered? && s.connList == []
  {
    hide Going;
    var s0 := Initial([c], 2);
    var s1 := Step(s0, Check(0));
    var s2 := Step(s1, Check(1));
    var s3 := Step(s2, Wait(0));
    var s4 := Acquired(s3, 0);
    var rest := [Interrupt(1), Go(1)];
    StrayMeetsEmptyList(s4, 1);
    Takes(s3, 0, rest);
    var e := Going(0, 5, rest);
    RunStep(s2, Wait(0), e);
    RunStep(s1, Check(1), [Wait(0)] + e);
    RunStep(s0, Check(0), [Check(1)] + ([Wait(0)] + e));
    events := [Check(0)] + ([Check(1)] + ([Wait(0)] + e));
    StepCount(s4, rest);
  }

  lemma {:induction false} StepCount<C>(s: Pool<C>, events: seq<Event>)
    requires Runs(s, events)
    ensures |After(s, events).pcs| == |s.pcs|
    decreases |events|
  {
    if events != [] {
      StepCount(Step(s, events[0]), events[1..]);
    }
  }
}
