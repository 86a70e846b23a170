/** The list of connections that HandleDriverConnection (apis/tools/src/dd_tool_connection.cpp)
    searches, extends and sweeps in place, and how its calls are steps of the system. */
module ConnectionLists {
  import opened ToolConnections

  /** An element of m_connections, with the flag that its thread sets last. */
  datatype Entry = Entry(id: nat, finished: bool)

  function Unfinished(es: seq<Entry>): seq<Entry> {
    if es == [] then []
    else
      var k := |es| - 1;
      if es[k].finished then Unfinished(es[..k]) else Unfinished(es[..k]) + [es[k]]
  }

  predicate HasId(es: seq<Entry>, id: nat) {
    exists i | 0 <= i < |es| :: es[i].id == id
  }

  /** The list after a driver with this id was handled. */
  function Handled(es: seq<Entry>, id: nat): seq<Entry> {
    Unfinished(if HasId(es, id) then es else es + [Entry(id, false)])
  }

  lemma {:induction false} UnfinishedConcat(a: seq<Entry>, b: seq<Entry>)
    ensures Unfinished(a + b) == Unfinished(a) + Unfinished(b)
    decreases |b|
  {
    if b == [] {
      assert a + b == a;
    } else {
      var k := |b| - 1;
      UnfinishedConcat(a, b[..k]);
      assert (a + b)[..|a| + k] == a + b[..k];
    }
  }

  class ConnectionList {
    var connections: seq<Entry>

    method Find(id: nat) returns (found: bool)
      ensures found <==> HasId(connections, id)
    {
      for i := 0 to |connections|
        invariant !HasId(connections[..i], id)
      {
        if connections[i].id == id { return true; }
      }
      assert connections[..|connections|] == connections;
      return false;
    }

    /** Erase finished connections while walking over the list. */
    method Sweep()
      modifies this
      ensures connections == Unfinished(old(connections))
    {
      ghost var all := connections;
      ghost var seen := 0;
      var i := 0;
      SweptAll(all, 0, connections, 0);
      while i < |connections|
        invariant Swept(all, seen, connections, i)
        decreases |connections| - i
      {
        SweepOne(all, seen, connections, i);
        if connections[i].finished {
          connections := connections[..i] + connections[i + 1..];
        } else {
          i := i + 1;
        }
        seen := seen + 1;
      }
      SweptAll(all, seen, connections, i);
    }

    method HandleDriverConnection(id: nat) returns (spawned: bool)
      modifies this
      ensures spawned <==> !HasId(old(connections), id)
      ensures connections == Handled(old(connections), id)
    {
      var found := Find(id);
      spawned := !found;
      if spawned { connections := connections + [Entry(id, false)]; }
      Sweep();
    }
  }

  /** The first elements are swept, the others still to come. */
  ghost predicate Swept(all: seq<Entry>, seen: nat, list: seq<Entry>, i: nat) {
    seen <= |all| && i == |Unfinished(all[..seen])| && list == Unfinished(all[..seen]) + all[seen..]
  }

  lemma SweepOne(all: seq<Entry>, seen: nat, list: seq<Entry>, i: nat)
    requires Swept(all, seen, list, i) && i < |list|
    ensures if list[i].finished then Swept(all, seen + 1, list[..i] + list[i + 1..], i) else Swept(all, seen + 1, list, i + 1)
  {
    assert all[..seen + 1][..seen] == all[..seen];
    var front, rest := Unfinished(all[..seen]), all[seen..];
    assert list[i] == all[seen] && rest == [all[seen]] + all[seen + 1..];
    assert list[..i] == front && list[i + 1..] == all[seen + 1..];
    Split(list, i);
  }

  lemma Split(list: seq<Entry>, i: nat)
    requires i < |list|
    ensures list == (list[..i] + [list[i]]) + list[i + 1..]
  {
  }

  /** At the beginning nothing is swept, at the end all is. */
  lemma SweptAll(all: seq<Entry>, seen: nat, list: seq<Entry>, i: nat)
    ensures Swept(all, 0, all, 0)
    ensures Swept(all, seen, list, i) && i >= |list| ==> list == Unfinished(all)
  {
    assert all[..0] == [] && all[0..] == all && all[..|all|] == all;
  }

  // ---- The list in the system -----------------------------------------------------------------

  /** What the list shows of the connections. */
  function View(cs: seq<Connection>): seq<Entry> {
    if cs == [] then []
    else
      var k := |cs| - 1;
      View(cs[..k]) + if cs[k].listed then [Entry(cs[k].id, cs[k].thread.phase.Finished?)] else []
  }

  /** Join the first n connections, where their threads have finished. */
  function JoinFirst(s: System, n: nat): System {
    if n == 0 then s else Next(JoinFirst(s, n - 1), Join(n - 1))
  }

  function Joined(c: Connection): Connection {
    if c.thread.phase.Finished? then c.(listed := false) else c
  }

  lemma {:induction false} JoinFirstJoins(s: System, n: nat)
    requires n <= |s.connections|
    ensures var cs := JoinFirst(s, n).connections;
            && |cs| == |s.connections| && JoinFirst(s, n) == s.(connections := cs)
            && forall i | 0 <= i < |cs| :: cs[i] == if i < n then Joined(s.connections[i]) else s.connections[i]
    decreases n
  {
    if n > 0 { JoinFirstJoins(s, n - 1); }
  }

  lemma {:induction false} JoinedView(cs: seq<Connection>, joined: seq<Connection>)
    requires |joined| == |cs| && forall i | 0 <= i < |cs| :: joined[i] == Joined(cs[i])
    ensures View(joined) == Unfinished(View(cs))
    decreases |cs|
  {
    if cs != [] {
      var k := |cs| - 1;
      JoinedView(cs[..k], joined[..k]);
      var last := if cs[k].listed then [Entry(cs[k].id, cs[k].thread.phase.Finished?)] else [];
      UnfinishedConcat(View(cs[..k]), last);
      assert last != [] ==> last[..0] == [];
    }
  }

  lemma {:induction false} ViewHasId(cs: seq<Connection>, id: nat)
    ensures HasId(View(cs), id) <==> IsListed(cs, id)
    decreases |cs|
  {
    if cs != [] {
      var k := |cs| - 1;
      ViewHasId(cs[..k], id);
      assert forall i | 0 <= i < k :: cs[..k][i] == cs[i];
      var front := View(cs[..k]);
      assert forall i | 0 <= i < |front| :: View(cs)[i] == front[i];
      if cs[k].listed { assert View(cs)[|front|].id == cs[k].id; }
    }
  }

  /** A call of HandleDriverConnection is a run of the system: a spawn and then joins. */
  lemma HandlingIsSpawnAndJoins(s: System, id: nat)
    ensures var spawned := Next(s, Spawn(id));
            View(JoinFirst(spawned, |spawned.connections|).connections) == Handled(View(s.connections), id)
  {
    var spawned := Next(s, Spawn(id));
    var n := |spawned.connections|;
    JoinFirstJoins(spawned, n);
    JoinedView(spawned.connections, JoinFirst(spawned, n).connections);
    ViewHasId(s.connections, id);
    if !IsListed(s.connections, id) {
      assert spawned.connections[..n - 1] == s.connections;
    }
  }
}
