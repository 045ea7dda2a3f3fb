/**
 The reader of model texts: it executes parsed statements one by one against the topology object, the list
 of data hosts and the threads of its daemon, and ends in the state the replay function says.
 */
module TopologyReaders {
  import opened Vectors
  import opened Threads
  import opened Topologies
  import opened ModelReplay
  import Degrees
  import opened TopologyObjects

  /** Every node of the groups runs on one of T threads. */
  ghost predicate ThreadsExist(gs: seq<Group>, T: nat) {
    forall x :: 0 <= x < |gs| ==> forall h :: h in gs[x].hosts ==> HostThreadsExist(h, T)
  }

  ghost predicate HostThreadsExist(h: GroupHost, T: nat) {
    forall i :: 0 <= i < |h.nodes| ==> h.nodes[i].thread < T
  }

  lemma JoinKeepsThreads(gs: seq<Group>, g: nat, h: GroupHost, T: nat)
    requires g < |gs| && ThreadsExist(gs, T) && HostThreadsExist(h, T)
    ensures ThreadsExist(AddHost(gs, g, h), T)
  {
    forall x | 0 <= x < |gs| ensures forall k :: k in AddHost(gs, g, h)[x].hosts ==> HostThreadsExist(k, T) {
      AddHostAt(gs, g, h, x);
    }
  }

  lemma LinkKeepsThreads(gs: seq<Group>, l: Link, T: nat)
    requires l.src < |gs| && l.dst < |gs| && ThreadsExist(gs, T)
    ensures ThreadsExist(AddLink(gs, l), T)
  {
    assert forall x :: 0 <= x < |gs| ==> AddLink(gs, l)[x].hosts == gs[x].hosts;
  }

  lemma PlaceInRange(loads: seq<nat>, threads: ThreadSpec, nb: nat)
    ensures var p := Place(loads, threads, nb);
      p.Some? ==> forall i :: 0 <= i < |p.value| ==> p.value[i] < |loads|
  {
    if |loads| > 0 { RoundsInRange(|loads|, Lightest(loads), nb / |loads|, |loads|); }
  }

  class TopologyReader {
    const topology: Topology
    const pool: ThreadPool
    var dataHosts: seq<DataHost>

    constructor (me: string, known: seq<DataHost>)
      ensures Valid() && View() == Daemon(me, [], known, [])
      ensures fresh(topology) && fresh(pool) && fresh(pool.loads)
    {
      topology := new Topology(me);
      pool := new ThreadPool(0);
      dataHosts := known;
    }

    ghost predicate Valid()
      reads this, topology, pool, pool.loads
    {
      Linked(topology.groups) && ThreadsExist(topology.groups, pool.loads.Length)
    }

    ghost function View(): Daemon
      reads this, topology, pool, pool.loads
    {
      Daemon(topology.me, topology.groups, dataHosts, pool.loads[..])
    }

    /** parse_declare_host and the creation of the daemon's own threads */
    method DeclareHost(name: string, nbThreads: nat)
      requires Valid()
      modifies `dataHosts, pool
      ensures Valid() && Step(old(View()), Stmt.DeclareHost(name, nbThreads)) == Ok(View())
      ensures pool.loads == old(pool.loads) || fresh(pool.loads)
    {
      FindHostLast(dataHosts, DataHost(name, nbThreads));
      dataHosts := Declare(dataHosts, name, nbThreads);
      if name == topology.me { pool.Create(FindHost(dataHosts, name).value.nbThreads); }
    }

    /** instantiate_nodes: the threads of nb new nodes; None where the source divides by zero or has no such thread. */
    method PlaceNodes(threads: ThreadSpec, nb: nat) returns (p: Option<seq<nat>>)
      modifies pool.loads
      ensures p == Place(old(pool.loads[..]), threads, nb)
      ensures pool.loads[..] == if p.Some? then Placed(old(pool.loads[..]), p.value) else old(pool.loads[..])
    {
      if nb == 0 {
        assert Placed(pool.loads[..], []) == pool.loads[..];
        return Some([]);
      }
      var placed: seq<nat>;
      if threads.OnThread? {
        if threads.thread >= pool.loads.Length { return None; }
        placed := pool.InstantiateOn(nb, threads.thread);
      } else {
        if pool.loads.Length == 0 { return None; }
        placed := pool.InstantiateEvenly(nb);
      }
      p := Some(placed);
    }

    /** Host h joins group g with local nodes on the threads p, which have been counted already. */
    method JoinLocally(g: nat, p: seq<nat>)
      requires Valid() && g < |topology.groups| && forall i :: 0 <= i < |p| ==> p[i] < pool.loads.Length
      modifies topology`groups
      ensures Valid()
      ensures topology.groups == AddHost(old(topology.groups), g, LocalHost(old(topology.groups), g, topology.me, p))
    {
      ghost var b := topology.groups;
      AddHostKeepsLinked(b, g, LocalHost(b, g, topology.me, p));
      JoinKeepsThreads(b, g, LocalHost(b, g, topology.me, p), pool.loads.Length);
      topology.AddLocalHost(g, p);
    }

    method JoinRemotely(g: nat, host: string, nb: nat)
      requires Valid() && g < |topology.groups|
      modifies topology`groups
      ensures Valid() && View() == JoinRemote(old(View()), g, host, nb)
    {
      ghost var b := topology.groups;
      AddHostKeepsLinked(b, g, GroupHost(host, false, nb, []));
      JoinKeepsThreads(b, g, GroupHost(host, false, nb, []), pool.loads.Length);
      topology.AddRemoteHost(g, host, nb);
    }

    /** assign, for one host.  False stands for an exception or a crash. */
    method AssignOne(g: nat, dh: DataHost, threads: ThreadSpec, nb: nat) returns (ok: bool)
      requires Valid() && g < |topology.groups|
      modifies topology`groups, pool.loads
      ensures Valid()
      ensures ModelReplay.AssignOne(old(View()), g, dh, threads, nb) == if ok then Ok(View()) else Aborted
      ensures |topology.groups| == |old(topology.groups)|
    {
      var want := Wanted(dh, threads, nb);
      if dh.name != topology.me {
        JoinRemotely(g, dh.name, want);
        return true;
      }
      PlaceInRange(pool.loads[..], threads, want);
      var p := PlaceNodes(threads, want);
      if p.None? { return false; }
      JoinLocally(g, p.value);
      ok := true;
    }

    /** The wildcard: the assignment repeated for every data host. */
    method AssignEach(g: nat, threads: ThreadSpec, nb: nat) returns (ok: bool)
      requires Valid() && g < |topology.groups|
      modifies topology`groups, pool.loads
      ensures Valid()
      ensures ModelReplay.AssignEach(old(View()), g, dataHosts, threads, nb) == if ok then Ok(View()) else Aborted
    {
      ghost var d := View();
      var dhs := dataHosts;
      for i := 0 to |dhs|
        invariant Valid() && |topology.groups| == |d.groups|
        invariant ModelReplay.AssignEach(d, g, dhs[..i], threads, nb) == Ok(View())
      {
        ok := AssignNext(g, dhs, i, threads, nb, d);
        if !ok {
          EachAborted(d, g, dhs, threads, nb, i + 1);
          return;
        }
      }
      assert dhs[..|dhs|] == dhs;
      ok := true;
    }

    method AssignNext(g: nat, dhs: seq<DataHost>, i: nat, threads: ThreadSpec, nb: nat, ghost d: Daemon)
      returns (ok: bool)
      requires Valid() && g < |topology.groups| == |d.groups| && i < |dhs|
      requires ModelReplay.AssignEach(d, g, dhs[..i], threads, nb) == Ok(View())
      modifies topology`groups, pool.loads
      ensures Valid() && |topology.groups| == |d.groups|
      ensures ModelReplay.AssignEach(d, g, dhs[..i + 1], threads, nb) == if ok then Ok(View()) else Aborted
    {
      EachNext(d, View(), g, dhs, threads, nb, i);
      ok := AssignOne(g, dhs[i], threads, nb);
    }

    /** assign_same_as another group */
    method AssignSame(g: nat, r: nat, limit: Option<nat>)
      requires Valid() && g < |topology.groups| && r < |topology.groups| && g != r
      modifies topology`groups, pool.loads
      ensures Valid() && View() == AssignSameEach(old(View()), g, old(topology.groups)[r].hosts, limit)
    {
      ghost var d := View();
      var hosts := topology.groups[r].hosts;
      for i := 0 to |hosts|
        invariant Valid() && |topology.groups| == |d.groups|
        invariant View() == AssignSameEach(d, g, hosts[..i], limit)
        invariant forall h :: h in hosts ==> HostThreadsExist(h, pool.loads.Length)
      {
        SameNext(d, g, hosts, i, limit);
        assert hosts[i] in hosts;
        JoinSameHost(g, hosts[i], limit);
      }
      assert hosts[..|hosts|] == hosts;
    }

    /** instantiate_nodes_same_as for one host of the other group */
    method JoinSameHost(g: nat, h: GroupHost, limit: Option<nat>)
      requires Valid() && g < |topology.groups| && HostThreadsExist(h, pool.loads.Length)
      modifies topology`groups, pool.loads
      ensures Valid() && View() == JoinSame(old(View()), g, h, limit)
    {
      if h.local {
        var p := SameThreads(h, limit);
        pool.InstantiateEach(p);
        JoinLocally(g, p);
      } else {
        JoinRemotely(g, h.host, Min(limit, h.count));
      }
    }

    method DeclareGroup(name: string)
      requires Valid()
      modifies topology`groups
      ensures Valid() && Step(old(View()), Stmt.DeclareGroup(name)) == Ok(View())
    {
      Degrees.NewGroupLinked(topology.groups, name);
      topology.groups := topology.groups + [NewGroup(name)];
    }

    method Connect(src: string, dst: string, kind: LinkKind)
      requires Valid()
      modifies topology`groups
      ensures Valid() && Step(old(View()), Stmt.Connect(src, dst, kind)) == Ok(View())
    {
      var a, b := FindGroup(Names(topology.groups), src), FindGroup(Names(topology.groups), dst);
      if a.Some? && b.Some? {
        ConnectGroups(a.value, b.value, kind);
      }
    }

    method ConnectGroups(src: nat, dst: nat, kind: LinkKind)
      requires Valid() && src < |topology.groups| && dst < |topology.groups|
      modifies topology`groups
      ensures Valid() && topology.groups == AddLink(old(topology.groups), LinkOf(src, dst, kind))
    {
      LinkKeepsThreads(topology.groups, LinkOf(src, dst, kind), pool.loads.Length);
      topology.Connect(src, dst, kind == ToAll, kind == ToLocal);
    }

    /** execute_statement_assign */
    method Assign(group: string, spec: HostSpec, threads: ThreadSpec, nb: nat) returns (ok: bool)
      requires Valid()
      modifies topology`groups, pool.loads
      ensures Valid() && Step(old(View()), Stmt.Assign(group, spec, threads, nb)) == if ok then Ok(View()) else Aborted
    {
      var g := FindGroup(Names(topology.groups), group);
      match spec
      case Wildcard =>
        if g.None? { return true; }
        ok := AssignEach(g.value, threads, nb);
      case Named(host) =>
        var dh := FindHost(dataHosts, host);
        if dh.None? && threads.EveryThread? { return false; }
        if g.None? { return true; }
        if dh.None? { return false; }
        ok := AssignOne(g.value, dh.value, threads, nb);
    }

    /** execute_statement.  A group assigned like itself grows while it is walked, which never ends. */
    method Execute(s: Stmt) returns (ok: bool)
      requires Valid()
      modifies this, topology, pool, pool.loads
      ensures Valid() && Step(old(View()), s) == if ok then Ok(View()) else Aborted
      ensures pool.loads == old(pool.loads) || fresh(pool.loads)
    {
      ok := true;
      match s
      case DeclareHost(name, n) => DeclareHost(name, n);
      case DeclareGroup(name) => DeclareGroup(name);
      case Connect(src, dst, kind) => Connect(src, dst, kind);
      case Assign(group, spec, threads, nb) => ok := Assign(group, spec, threads, nb);
      case AssignSame(group, ref, limit) =>
        var g, r := FindGroup(Names(topology.groups), group), FindGroup(Names(topology.groups), ref);
        if g.Some? && r.Some? {
          if g != r {
            AssignSame(g.value, r.value, limit);
          } else {
            ok := |topology.groups[r.value].hosts| == 0;
          }
        }
      case SetProperty(_) =>
    }

    /** The reading loop: what this object ends with is what the replay says. */
    method Read(stmts: seq<Stmt>) returns (ok: bool)
      requires Valid()
      modifies this, topology, pool, pool.loads
      ensures Valid() && Exec(old(View()), stmts) == if ok then Ok(View()) else Aborted
    {
      ghost var d := View();
      for i := 0 to |stmts|
        invariant Valid() && Exec(d, stmts[..i]) == Ok(View())
        invariant pool.loads == old(pool.loads) || fresh(pool.loads)
      {
        assert stmts[..i + 1][..i] == stmts[..i];
        ok := Execute(stmts[i]);
        if !ok {
          Aborts(d, stmts, i + 1);
          return;
        }
      }
      assert stmts[..|stmts|] == stmts;
      ok := true;
    }
  }

  lemma EachNext(d: Daemon, before: Daemon, g: nat, dhs: seq<DataHost>, threads: ThreadSpec, nb: nat, i: nat)
    requires g < |d.groups| && g < |before.groups| && i < |dhs| && AssignEach(d, g, dhs[..i], threads, nb) == Ok(before)
    ensures AssignEach(d, g, dhs[..i + 1], threads, nb) == AssignOne(before, g, dhs[i], threads, nb)
  {
    assert dhs[..i + 1][..i] == dhs[..i];
  }

  lemma {:induction false} EachAborted(d: Daemon, g: nat, dhs: seq<DataHost>, threads: ThreadSpec, nb: nat, i: nat)
    requires g < |d.groups| && i <= |dhs| && AssignEach(d, g, dhs[..i], threads, nb).Aborted?
    ensures AssignEach(d, g, dhs, threads, nb).Aborted?
    decreases |dhs|
  {
    if i < |dhs| {
      assert dhs[..|dhs| - 1][..i] == dhs[..i];
      EachAborted(d, g, dhs[..|dhs| - 1], threads, nb, i);
    } else {
      assert dhs[..i] == dhs;
    }
  }

  lemma SameNext(d: Daemon, g: nat, hosts: seq<GroupHost>, i: nat, limit: Option<nat>)
    requires g < |d.groups| && i < |hosts|
    ensures AssignSameEach(d, g, hosts[..i + 1], limit)
         == JoinSame(AssignSameEach(d, g, hosts[..i], limit), g, hosts[i], limit)
  {
    assert hosts[..i + 1][..i] == hosts[..i];
  }

  lemma {:induction false} Aborts(d: Daemon, stmts: seq<Stmt>, i: nat)
    requires i <= |stmts| && Exec(d, stmts[..i]).Aborted?
    ensures Exec(d, stmts).Aborted?
    decreases |stmts|
  {
    if i < |stmts| {
      assert stmts[..|stmts| - 1][..i] == stmts[..i];
      Aborts(d, stmts[..|stmts| - 1], i);
    } else {
      assert stmts[..i] == stmts;
    }
  }
}
