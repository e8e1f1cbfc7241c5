/**
The table of timers that the sorted list keeps, as a sequence of keys and expiry times.
*/
module TimerTable {
  import opened SourceVersion

  datatype Entry<K> = Entry(key: K, expire: int)

  /** Whose timer it is: the descriptor of a connection, and a number that tells apart the timers made for it. */
  datatype Owner = Owner(fd: int, serial: nat)

  ghost predicate Sorted<K>(t: seq<Entry<K>>) {
    forall i, j :: 0 <= i < j < |t| ==> t[i].expire <= t[j].expire
  }

  ghost predicate DistinctKeys<K>(t: seq<Entry<K>>) {
    forall i, j :: 0 <= i < j < |t| ==> t[i].key != t[j].key
  }

  /** How many leading entries expire no later than e. */
  function Rank<K>(t: seq<Entry<K>>, e: int): (r: nat)
    ensures r <= |t|
    ensures forall i :: 0 <= i < r ==> t[i].expire <= e
    ensures r < |t| ==> e < t[r].expire
  {
    if t == [] || e < t[0].expire then 0 else 1 + Rank(t[1..], e)
  }

  /** The entry goes behind all that expire no later: equal expiry times keep the order of insertion. */
  function Insert<K>(t: seq<Entry<K>>, x: Entry<K>): (r: seq<Entry<K>>)
    ensures |r| == |t| + 1
  {
    var k := Rank(t, x.expire);
    t[..k] + [x] + t[k..]
  }

  function RemoveAt<K>(t: seq<Entry<K>>, i: nat): (r: seq<Entry<K>>)
    requires i < |t|
    ensures |r| == |t| - 1
  {
    t[..i] + t[i + 1..]
  }

  /** The timer at i has been given its present expiry time, no earlier than the one it had. */
  ghost predicate Extended<K>(t: seq<Entry<K>>, i: nat) {
    && i < |t|
    && (forall j, k :: 0 <= j < k < |t| && j != i && k != i ==> t[j].expire <= t[k].expire)
    && (forall j :: 0 <= j < i ==> t[j].expire <= t[i].expire)
  }

  /** Whether adjust_timer moves the timer at i. */
  predicate Moves<K>(t: seq<Entry<K>>, i: nat)
    requires i < |t|
  {
    i + 1 < |t| && t[i].expire >= t[i + 1].expire
  }

  /**
  adjust_timer. As written, moving the first timer cuts the list behind the second one.
  */
  function Adjusted<K>(ver: Version, t: seq<Entry<K>>, i: nat): seq<Entry<K>>
    requires i < |t|
  {
    if !Moves(t, i) then t
    else if ver == AsWritten && i == 0 then [t[1], t[0]]
    else Insert(RemoveAt(t, i), t[i])
  }

  /** The timers that tick fires at time now are the leading ones that have expired. */
  function Expired<K>(t: seq<Entry<K>>, now: int): seq<Entry<K>> {
    t[..Rank(t, now)]
  }

  function Unexpired<K>(t: seq<Entry<K>>, now: int): seq<Entry<K>> {
    t[Rank(t, now)..]
  }

  // ---------- What the operations keep ----------

  lemma RankIs<K>(t: seq<Entry<K>>, e: int, r: nat)
    requires r <= |t|
    requires forall i :: 0 <= i < r ==> t[i].expire <= e
    requires r < |t| ==> e < t[r].expire
    ensures Rank(t, e) == r
  {
  }

  /** For a sorted table the expired entries are exactly those whose time has come. */
  lemma ExpiredExactly<K>(t: seq<Entry<K>>, now: int)
    requires Sorted(t)
    ensures forall x :: x in Expired(t, now) <==> x in t && x.expire <= now
    ensures forall x :: x in Unexpired(t, now) <==> x in t && x.expire > now
    ensures Expired(t, now) + Unexpired(t, now) == t
  {
    hide Rank;
    var k := Rank(t, now);
    assert t == t[..k] + t[k..];
    forall x
      ensures x in t[..k] <==> x in t && x.expire <= now
      ensures x in t[k..] <==> x in t && x.expire > now
    {
      ExpiredSplit(t, now, x, k);
    }
  }

  lemma ExpiredSplit<K>(t: seq<Entry<K>>, now: int, x: Entry<K>, k: nat)
    requires Sorted(t) && k <= |t| && (forall i :: 0 <= i < k ==> t[i].expire <= now)
    requires k < |t| ==> now < t[k].expire
    ensures x in t[..k] <==> x in t && x.expire <= now
    ensures x in t[k..] <==> x in t && x.expire > now
  {
    if x in t {
      var i :| 0 <= i < |t| && t[i] == x;
      if i < k {
        assert t[..k][i] == x;
      } else {
        assert t[k..][i - k] == x && t[k].expire <= t[i].expire;
      }
    }
  }

  lemma ReinsertInPlace<K>(t: seq<Entry<K>>, i: nat)
    requires Extended(t, i) && !Moves(t, i)
    ensures Insert(RemoveAt(t, i), t[i]) == t
  {
    var u := RemoveAt(t, i);
    RankIs(u, t[i].expire, i);
    assert u[..i] == t[..i] && u[i..] == t[i + 1..];
  }

  lemma RemovedSorted<K>(t: seq<Entry<K>>, i: nat)
    requires Extended(t, i)
    ensures Sorted(RemoveAt(t, i)) && multiset(RemoveAt(t, i)) + multiset{t[i]} == multiset(t)
    ensures DistinctKeys(t) ==>
              DistinctKeys(RemoveAt(t, i)) && forall j :: 0 <= j < |t| - 1 ==> RemoveAt(t, i)[j].key != t[i].key
  {
    var u := RemoveAt(t, i);
    assert t == t[..i] + [t[i]] + t[i + 1..];
    forall j | 0 <= j < |u|
      ensures u[j] == t[if j < i then j else j + 1]
    {
    }
  }

  lemma SplicedAt<T>(s: seq<T>, x: T, j: nat)
    requires j <= |s|
    ensures var t := s[..j] + [x] + s[j..];
            && |t| == |s| + 1 && t[j] == x
            && (forall i :: 0 <= i < j ==> t[i] == s[i])
            && (forall i :: j <= i < |s| ==> t[i + 1] == s[i])
  {
  }

  lemma InsertElements<K>(t: seq<Entry<K>>, x: Entry<K>)
    ensures var k, u := Rank(t, x.expire), Insert(t, x);
            && |u| == |t| + 1 && u[k] == x
            && (forall i :: 0 <= i < k ==> u[i] == t[i])
            && (forall i :: k <= i < |t| ==> u[i + 1] == t[i])
  {
    hide Rank;
    SplicedAt(t, x, Rank(t, x.expire));
  }

  lemma SplitMultiset<T>(t: seq<T>, x: T, k: nat)
    requires k <= |t|
    ensures multiset(t[..k] + [x] + t[k..]) == multiset(t) + multiset{x}
  {
    assert t == t[..k] + t[k..];
  }

  lemma InsertSorted<K>(t: seq<Entry<K>>, x: Entry<K>)
    requires Sorted(t)
    ensures Sorted(Insert(t, x)) && multiset(Insert(t, x)) == multiset(t) + multiset{x}
  {
    forall i, j | 0 <= i < j < |t| + 1
      ensures Insert(t, x)[i].expire <= Insert(t, x)[j].expire
    {
      InsertOrder(t, x, i, j);
    }
    hide Sorted, Rank;
    SplitMultiset(t, x, Rank(t, x.expire));
  }

  lemma InsertOrder<K>(t: seq<Entry<K>>, x: Entry<K>, i: nat, j: nat)
    requires Sorted(t) && i < j <= |t|
    ensures Insert(t, x)[i].expire <= Insert(t, x)[j].expire
  {
    hide Insert;
    InsertElements(t, x);
    var k, u := Rank(t, x.expire), Insert(t, x);
    var a, b := if i < k then i else i - 1, if j < k then j else j - 1;
    assert i < k ==> u[i] == t[a];
    assert i > k ==> u[a + 1] == t[a];
    assert j < k ==> u[j] == t[b];
    assert j > k ==> u[b + 1] == t[b];
    assert k < |t| && k <= b ==> t[k].expire <= t[b].expire;
  }

  lemma InsertKeeps<K>(t: seq<Entry<K>>, x: Entry<K>)
    requires DistinctKeys(t) && (forall i :: 0 <= i < |t| ==> t[i].key != x.key)
    ensures DistinctKeys(Insert(t, x))
  {
    hide Insert;
    InsertElements(t, x);
    var k, u := Rank(t, x.expire), Insert(t, x);
    forall i, j | 0 <= i < j < |u|
      ensures u[i].key != u[j].key
    {
      var a, b := if i < k then i else i - 1, if j < k then j else j - 1;
      assert i < k ==> u[i] == t[a];
      assert i > k ==> u[a + 1] == t[a];
      assert j < k ==> u[j] == t[b];
      assert j > k ==> u[b + 1] == t[b];
    }
  }

  /** Adjusting after an extension is removing the timer and inserting it again. */
  lemma AdjustIsReinsert<K>(t: seq<Entry<K>>, i: nat)
    requires Extended(t, i)
    ensures Adjusted(Repaired, t, i) == Insert(RemoveAt(t, i), t[i])
    ensures Sorted(Adjusted(Repaired, t, i))
    ensures multiset(Adjusted(Repaired, t, i)) == multiset(t)
    ensures DistinctKeys(t) ==> DistinctKeys(Adjusted(Repaired, t, i))
  {
    hide Insert, Sorted, DistinctKeys;
    RemovedSorted(t, i);
    InsertSorted(RemoveAt(t, i), t[i]);
    if !Moves(t, i) {
      ReinsertInPlace(t, i);
    }
    if DistinctKeys(t) {
      InsertKeeps(RemoveAt(t, i), t[i]);
    }
  }

  lemma InsertBehind<K>(y: Entry<K>, x: Entry<K>)
    requires y.expire <= x.expire
    ensures Insert([y], x) == [y, x]
  {
    RankIs([y], x.expire, 1);
  }

  /** The code as written agrees with that if and only if it does not move the first of three or more timers. */
  lemma AdjustAsWritten<K>(t: seq<Entry<K>>, i: nat)
    requires Extended(t, i) && DistinctKeys(t)
    ensures Adjusted(AsWritten, t, i) == Adjusted(Repaired, t, i) <==> !(i == 0 && Moves(t, 0) && |t| >= 3)
    ensures !(i == 0 && Moves(t, 0) && |t| >= 3) <==> multiset(Adjusted(AsWritten, t, i)) == multiset(t)
    ensures i == 0 && Moves(t, 0) && |t| >= 3 ==> forall j :: 2 <= j < |t| ==> t[j] !in Adjusted(AsWritten, t, i)
  {
    hide Insert, Sorted;
    AdjustIsReinsert(t, i);
    if i == 0 && Moves(t, 0) {
      assert |multiset(t)| == |t|;
      assert |multiset(Adjusted(AsWritten, t, i))| == 2;
      if |t| == 2 {
        var u := RemoveAt(t, 0);
        assert u == [t[1]];
        InsertBehind(t[1], t[0]);
      }
    }
  }
}
