/**
The user table of the chat server and the index that leads from a process id to a place in the table. A user who
leaves is replaced by the last one.
*/
module ChatTables {
  const USER_LIMIT: nat := 5
  const PROCESS_LIMIT: nat := 65535

  datatype User = User(connfd: int, pid: int)

  /** users are all USER_LIMIT + 1 entries of the table, of which the first count are in use. */
  datatype Tables = Tables(users: seq<User>, subProcess: seq<int>, count: nat)

  ghost predicate Shape(t: Tables) {
    |t.users| == USER_LIMIT + 1 && |t.subProcess| == PROCESS_LIMIT && t.count <= USER_LIMIT
  }

  predicate IsPid(pid: int) {
    0 < pid < PROCESS_LIMIT
  }

  /** The process ids in use are distinct, and the index leads from each to its place. */
  ghost predicate Inv(t: Tables) {
    && Shape(t)
    && (forall i :: 0 <= i < t.count ==> IsPid(t.users[i].pid) && t.subProcess[t.users[i].pid] == i)
  }

  /** The children that have been forked and not yet waited for. */
  ghost predicate IsLive(t: Tables, pid: int)
    requires Shape(t)
  {
    exists i :: 0 <= i < t.count && t.users[i].pid == pid
  }

  /** An accepted connection for which fork has returned pid; the entry is written even if fork fails. */
  function Joined(t: Tables, connfd: int, pid: int): (r: Tables)
    requires Shape(t) && (pid >= 0 ==> IsPid(pid))
    ensures Shape(r)
  {
    if t.count >= USER_LIMIT then t
    else if pid < 0 then t.(users := t.users[t.count := t.users[t.count].(connfd := connfd)])
    else Tables(t.users[t.count := User(connfd, pid)], t.subProcess[pid := t.count], t.count + 1)
  }

  /** A child that waitpid has returned. */
  function Left(t: Tables, pid: int): (r: Tables)
    requires Inv(t) && IsLive(t, pid)
    ensures Shape(r)
  {
    var delUser := t.subProcess[pid];
    var users := t.users[delUser := t.users[t.count - 1]];
    Tables(users, t.subProcess[pid := -1][users[delUser].pid := delUser], t.count - 1)
  }

  lemma JoinKeeps(t: Tables, connfd: int, pid: int)
    requires Inv(t) && (pid >= 0 ==> IsPid(pid) && !IsLive(t, pid))
    ensures Inv(Joined(t, connfd, pid))
    ensures Joined(t, connfd, pid).users[..Joined(t, connfd, pid).count] ==
            t.users[..t.count] + if t.count < USER_LIMIT && pid >= 0 then [User(connfd, pid)] else []
  {
    var r := Joined(t, connfd, pid);
    forall i | 0 <= i < r.count
      ensures IsPid(r.users[i].pid) && r.subProcess[r.users[i].pid] == i
    {
      assert i < t.count ==> r.users[i] == t.users[i];
    }
  }

  /** The users that stay are the ones that were there, without the one who left. */
  lemma LeaveKeeps(t: Tables, pid: int)
    requires Inv(t) && IsLive(t, pid)
    ensures Inv(Left(t, pid)) && !IsLive(Left(t, pid), pid)
    ensures multiset(Left(t, pid).users[..t.count - 1]) + multiset{t.users[t.subProcess[pid]]} ==
            multiset(t.users[..t.count])
  {
    LeaveKeepsIndex(t, pid);
    SwapRemoved(t.users, t.subProcess[pid], t.count - 1);
  }

  lemma LeaveKeepsIndex(t: Tables, pid: int)
    requires Inv(t) && IsLive(t, pid)
    ensures Inv(Left(t, pid)) && !IsLive(Left(t, pid), pid)
  {
    var r, d, n := Left(t, pid), t.subProcess[pid], t.count - 1;
    forall i | 0 <= i < r.count
      ensures IsPid(r.users[i].pid) && r.subProcess[r.users[i].pid] == i && r.users[i].pid != pid
    {
      assert r.users[i] == t.users[if i == d then n else i];
    }
  }

  lemma SwapRemoved<T>(s: seq<T>, d: nat, n: nat)
    requires d <= n < |s|
    ensures multiset(s[d := s[n]][..n]) + multiset{s[d]} == multiset(s[..n + 1])
  {
    assert s[..n + 1] == s[..n] + [s[n]];
    if d == n {
      assert s[d := s[n]] == s;
    } else {
      assert s[..n] == s[..d] + [s[d]] + s[d + 1..n];
      assert s[d := s[n]][..n] == s[..d] + [s[n]] + s[d + 1..n];
    }
  }

  /** The entry of the process that left is cleared exactly if it did not have the last place of the table. */
  lemma EntryClearedUnlessLast(t: Tables, pid: int)
    requires Inv(t) && IsLive(t, pid)
    ensures Left(t, pid).subProcess[pid] == -1 <==> t.subProcess[pid] != t.count - 1
  {
    assert t.users[t.count - 1].pid == pid <==> t.subProcess[pid] == t.count - 1;
  }

  // ---------- Whole runs ----------

  datatype Event = Join(connfd: int, pid: int) | Exit(pid: int)

  /** fork never returns the id of a child that has not been waited for, and waitpid returns only such ids. */
  ghost predicate Runs(t: Tables, events: seq<Event>)
    requires Inv(t)
    decreases |events|
  {
    events != [] ==>
      match events[0]
      case Join(connfd, pid) =>
        && (pid >= 0 ==> IsPid(pid) && !IsLive(t, pid))
        && (JoinKeeps(t, connfd, pid); Runs(Joined(t, connfd, pid), events[1..]))
      case Exit(pid) =>
        && IsLive(t, pid)
        && (LeaveKeeps(t, pid); Runs(Left(t, pid), events[1..]))
  }

  ghost function After(t: Tables, events: seq<Event>): (r: Tables)
    requires Inv(t) && Runs(t, events)
    ensures Inv(r)
    decreases |events|
  {
    if events == [] then t
    else
      match events[0]
      case Join(connfd, pid) =>
        JoinKeeps(t, connfd, pid);
        After(Joined(t, connfd, pid), events[1..])
      case Exit(pid) =>
        LeaveKeeps(t, pid);
        After(Left(t, pid), events[1..])
  }

  /** In every run of joins and exits the index is right for everyone in the table, and nobody is in it twice. */
  lemma IndexStaysRight(t: Tables, events: seq<Event>)
    requires Shape(t) && t.count == 0 && Runs(t, events)
    ensures var r := After(t, events);
            && (forall i :: 0 <= i < r.count ==> IsPid(r.users[i].pid) && r.subProcess[r.users[i].pid] == i)
            && (forall i, j :: 0 <= i < j < r.count ==> r.users[i].pid != r.users[j].pid)
  {
  }

  // ---------- The tables in place ----------

  class ChatServer {
    const users: array<User>
    const subProcess: array<int>
    var userCount: nat

    ghost function View(): Tables
      reads this, users, subProcess
    {
      Tables(users[..], subProcess[..], userCount)
    }

    constructor (users: array<User>)
      requires users.Length == USER_LIMIT + 1
      ensures Inv(View()) && userCount == 0 && this.users == users && fresh(subProcess)
    {
      this.users := users;
      subProcess := new int[PROCESS_LIMIT](i => -1);
      userCount := 0;
    }

    method Accept(connfd: int, pid: int) returns (accepted: bool)
      requires Inv(View()) && (pid >= 0 ==> IsPid(pid) && !IsLive(View(), pid))
      modifies this, users, subProcess
      ensures Inv(View()) && View() == Joined(old(View()), connfd, pid)
      ensures accepted <==> old(userCount) < USER_LIMIT && pid >= 0
    {
      JoinKeeps(View(), connfd, pid);
      if userCount >= USER_LIMIT {
        return false;
      }
      users[userCount] := users[userCount].(connfd := connfd);
      if pid < 0 {
        return false;
      }
      users[userCount] := users[userCount].(pid := pid);
      subProcess[pid] := userCount;
      userCount := userCount + 1;
      return true;
    }

    method Waited(pid: int)
      requires Inv(View()) && IsLive(View(), pid)
      modifies this, users, subProcess
      ensures Inv(View()) && View() == Left(old(View()), pid)
    {
      LeaveKeeps(View(), pid);
      var delUser := subProcess[pid];
      subProcess[pid] := -1;
      if delUser < 0 || delUser > USER_LIMIT {
        assert false;
        return;
      }
      userCount := userCount - 1;
      users[delUser] := users[userCount];
      subProcess[users[delUser].pid] := delUser;
    }
  }
}
